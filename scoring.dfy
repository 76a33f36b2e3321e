/**
  The two-level mean: each workshop's score is the average percentage of its
  results, and a student's overall score is the average of the workshop
  scores, rounded to two decimals.
*/
module Scoring {
  import opened JsNumber
  import opened Records
  import opened Grouping

  /** Every result's percentage is a finite number (no non-zero mark over a zero or null total). */
  predicate Scorable(rs: seq<AssessmentResult>)
  {
    forall r :: r in rs ==> Percentage(r).Finite?
  }

  /** `assessments.reduce((sum, result) => sum + (percentage || 0), 0)`. */
  function WorkshopTotal(g: seq<AssessmentResult>): (total: real)
    requires Scorable(g)
  {
    if g == [] then 0.0 else WorkshopTotal(Init(g)) + Percentage(Last(g)).value
  }

  /** `workshopTotal / assessments.length`. */
  function WorkshopScore(g: seq<AssessmentResult>): (score: real)
    requires g != [] && Scorable(g)
  {
    WorkshopTotal(g) / |g| as real
  }

  /** The per-workshop averages, one for each key in `keys`, in that order. */
  function WorkshopScores(rs: seq<AssessmentResult>, keys: seq<WorkshopId>): (s: seq<real>)
    requires Scorable(rs)
    requires forall k :: k in keys ==> k in Ids(rs)
    ensures |s| == |keys|
  {
    seq(|keys|, i requires 0 <= i < |keys| => ScoreOf(rs, keys[i]))
  }

  /** The average of workshop `k`'s group. */
  function ScoreOf(rs: seq<AssessmentResult>, k: WorkshopId): (score: real)
    requires Scorable(rs) && k in Ids(rs)
  {
    IdsHaveGroups(rs, k);
    SelectMembers(rs, k);
    WorkshopScore(Select(rs, k))
  }

  function Sum(xs: seq<real>): (total: real)
  {
    if xs == [] then 0.0 else Sum(Init(xs)) + Last(xs)
  }

  /** The mean of the workshop scores, before rounding; 0 when there are none. */
  function MeanOfWorkshops(rs: seq<AssessmentResult>): (mean: real)
    requires Scorable(rs)
  {
    var scores := WorkshopScores(rs, Ids(rs));
    if |scores| > 0 then Sum(scores) / |scores| as real else 0.0
  }

  /** `Number(workshopScores.length > 0 ? mean.toFixed(2) : 0)`. */
  function OverallScore(rs: seq<AssessmentResult>): (score: real)
    requires Scorable(rs)
  {
    if |Ids(rs)| > 0 then ToFixed2(MeanOfWorkshops(rs)) else 0.0
  }

  /**
    For a student with at least one result there is at least one workshop,
    so the `: 0` branch is never taken, and the overall score is the mean of
    the workshop scores up to half a hundredth.
  */
  lemma OverallScoreIsRoundedMean(rs: seq<AssessmentResult>)
    requires Scorable(rs) && rs != []
    ensures |Ids(rs)| > 0
    ensures OverallScore(rs) == ToFixed2(MeanOfWorkshops(rs))
    ensures -1.0 / 200.0 <= OverallScore(rs) - MeanOfWorkshops(rs) <= 1.0 / 200.0
  {
    IdsMembership(rs, rs[0].workshopId);
  }

  /** A result whose percentage falls back to 0 adds nothing to the total but still counts in the divisor. */
  lemma FallbackCountsInDivisor(g: seq<AssessmentResult>, r: AssessmentResult)
    requires Scorable(g) && Percentage(r) == Finite(0.0)
    ensures Scorable(g + [r])
    ensures WorkshopTotal(g + [r]) == WorkshopTotal(g)
    ensures WorkshopScore(g + [r]) == WorkshopTotal(g) / (|g| + 1) as real
  {
    InitSnoc(g, r);
  }

  /** A mark pair the source's data is expected to carry: 0 <= obtained <= total and total > 0. */
  predicate WellFormed(r: AssessmentResult)
  {
    && r.score.Some?
    && r.score.value.obtainedMarks.Num?
    && r.score.value.totalMarks.Num?
    && 0.0 <= r.score.value.obtainedMarks.v <= r.score.value.totalMarks.v
    && 0.0 < r.score.value.totalMarks.v
  }

  lemma PercentageBounds(r: AssessmentResult)
    requires WellFormed(r)
    ensures Percentage(r).Finite? && 0.0 <= Percentage(r).value <= 100.0
  {
    QuotientAtMostOne(r.score.value.obtainedMarks.v, r.score.value.totalMarks.v);
  }

  lemma QuotientAtMostOne(o: real, t: real)
    requires 0.0 <= o <= t && 0.0 < t
    ensures 0.0 <= o / t <= 1.0
  {
    var q := o / t;
    assert q * t == o;
    assert (1.0 - q) * t == t - o;
  }

  lemma {:induction false} WorkshopTotalBounds(g: seq<AssessmentResult>)
    requires forall r :: r in g ==> WellFormed(r)
    ensures Scorable(g)
    ensures 0.0 <= WorkshopTotal(g) <= 100.0 * |g| as real
  {
    forall r | r in g ensures Percentage(r).Finite? {
      PercentageBounds(r);
    }
    if g != [] {
      WorkshopTotalBounds(Init(g));
      PercentageBounds(Last(g));
    }
  }

  /** With well-formed marks a workshop score is a percentage. */
  lemma WorkshopScoreBounds(g: seq<AssessmentResult>)
    requires g != []
    requires forall r :: r in g ==> WellFormed(r)
    ensures Scorable(g)
    ensures 0.0 <= WorkshopScore(g) <= 100.0
  {
    WorkshopTotalBounds(g);
    DivideBounds(WorkshopTotal(g), |g| as real);
  }

  lemma DivideBounds(t: real, n: real)
    requires 0.0 < n && 0.0 <= t <= 100.0 * n
    ensures 0.0 <= t / n <= 100.0
  {
  }

  lemma {:induction false} SumBounds(xs: seq<real>)
    requires forall i :: 0 <= i < |xs| ==> 0.0 <= xs[i] <= 100.0
    ensures 0.0 <= Sum(xs) <= 100.0 * |xs| as real
  {
    if xs != [] {
      SumBounds(Init(xs));
    }
  }

  /** With well-formed marks the overall score is a percentage, rounding included. */
  lemma OverallScoreBounds(rs: seq<AssessmentResult>)
    requires forall r :: r in rs ==> WellFormed(r)
    ensures Scorable(rs)
    ensures forall i :: 0 <= i < |Ids(rs)| ==> 0.0 <= WorkshopScores(rs, Ids(rs))[i] <= 100.0
    ensures 0.0 <= OverallScore(rs) <= 100.0
  {
    WorkshopTotalBounds(rs);
    var scores := WorkshopScores(rs, Ids(rs));
    forall i | 0 <= i < |scores| ensures 0.0 <= scores[i] <= 100.0 {
      IdsHaveGroups(rs, Ids(rs)[i]);
      SelectMembers(rs, Ids(rs)[i]);
      WorkshopScoreBounds(Select(rs, Ids(rs)[i]));
    }
    SumBounds(scores);
    if |scores| > 0 {
      var mean := Sum(scores) / |scores| as real;
      DivideBounds(Sum(scores), |scores| as real);
      ToFixed2Percent(mean);
    }
  }

  lemma {:induction false} WorkshopTotalAppend(g: seq<AssessmentResult>, h: seq<AssessmentResult>)
    requires Scorable(g) && Scorable(h)
    ensures Scorable(g + h)
    ensures WorkshopTotal(g + h) == WorkshopTotal(g) + WorkshopTotal(h)
  {
    if h == [] {
      assert g + h == g;
    } else {
      var p, r := Init(h), Last(h);
      assert h == p + [r];
      assert Scorable(p) by {
        assert forall x :: x in p ==> x in h;
      }
      WorkshopTotalAppend(g, p);
      assert g + h == (g + p) + [r];
      InitSnoc(g + p, r);
      assert WorkshopTotal(g + h) == WorkshopTotal(g + p) + Percentage(r).value;
    }
  }

  /** Repeating a group doubles its total and its size, so its average stays. */
  lemma DoubledGroupScore(g: seq<AssessmentResult>)
    requires g != [] && Scorable(g)
    ensures Scorable(g + g) && WorkshopScore(g + g) == WorkshopScore(g)
  {
    WorkshopTotalAppend(g, g);
    HalvedQuotient(WorkshopTotal(g), |g| as real);
  }

  lemma HalvedQuotient(t: real, n: real)
    requires n > 0.0
    ensures (t + t) / (n + n) == t / n
  {
  }

  lemma ScoreOfRepeated(rs: seq<AssessmentResult>, k: WorkshopId, k': WorkshopId)
    requires Scorable(rs) && k in Ids(rs) && k' in Ids(rs)
    ensures Scorable(rs + Select(rs, k)) && k' in Ids(rs + Select(rs, k))
    ensures ScoreOf(rs + Select(rs, k), k') == ScoreOf(rs, k')
  {
    var extra := Select(rs, k);
    var rs' := rs + extra;
    SelectMembers(rs, k);
    WorkshopTotalAppend(rs, extra);
    IdsAppendKnown(rs, extra);
    SelectAppend(rs, extra, k');
    var g := Select(rs, k');
    IdsHaveGroups(rs, k');
    if k' == k {
      SelectOfSelect(rs, k);
      DoubledGroupScore(g);
    } else {
      IdsMembership(extra, k');
      SelectOfAbsent(extra, k');
      assert Select(rs', k') == g;
    }
  }

  /**
    The weight of a workshop in the overall score does not depend on how many
    assessments it holds: submitting every assessment of one workshop a second
    time leaves the overall score unchanged.
  */
  lemma RepeatingWorkshopKeepsOverall(rs: seq<AssessmentResult>, k: WorkshopId)
    requires Scorable(rs) && k in Ids(rs)
    ensures Scorable(rs + Select(rs, k))
    ensures OverallScore(rs + Select(rs, k)) == OverallScore(rs)
  {
    var rs' := rs + Select(rs, k);
    SelectMembers(rs, k);
    WorkshopTotalAppend(rs, Select(rs, k));
    IdsAppendKnown(rs, Select(rs, k));
    var keys := Ids(rs);
    var before, after := WorkshopScores(rs, keys), WorkshopScores(rs', keys);
    forall i | 0 <= i < |keys| ensures after[i] == before[i] {
      ScoreOfRepeated(rs, k, keys[i]);
    }
    assert after == before;
  }
}
