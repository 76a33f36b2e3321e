/** Worked inputs for the leaderboard aggregation, with the outputs the model gives. */
module LeaderboardExamples {
  import opened Wrappers
  import opened JsNumber
  import opened Records
  import opened Grouping
  import opened Scoring
  import opened Leaderboard

  function Marked(w: WorkshopId, obtained: real, total: real): AssessmentResult
  {
    AssessmentResult(w, Some(Score(Num(obtained), Num(total))))
  }

  /** A zero total with zero obtained is 0/0, NaN, and falls back to 0; a positive mark over zero is Infinity and stays. */
  lemma ZeroTotalExample()
    ensures Percentage(Marked("w1", 0.0, 0.0)) == Finite(0.0)
    ensures Percentage(Marked("w1", 5.0, 0.0)) == PosInfinity
    ensures Percentage(AssessmentResult("w1", Some(Score(Num(5.0), Null)))) == PosInfinity
    ensures Percentage(AssessmentResult("w1", Some(Score(Null, Num(10.0))))) == Finite(0.0)
    ensures Percentage(AssessmentResult("w1", None)) == Finite(0.0)
    ensures WorkshopScore([Marked("w1", 100.0, 100.0), Marked("w1", 0.0, 0.0)]) == 50.0
  {
    var g := [Marked("w1", 100.0, 100.0), Marked("w1", 0.0, 0.0)];
    assert Init(g) == [g[0]] && Init([g[0]]) == [];
  }

  /** A one-result group totals that result's percentage. */
  lemma TotalOfOne(x: AssessmentResult)
    requires Percentage(x).Finite?
    ensures Scorable([x]) && WorkshopTotal([x]) == Percentage(x).value
  {
    assert Init([x]) == [] && Last([x]) == x;
  }

  /** A two-result group totals the sum of both percentages. */
  lemma TotalOfTwo(x: AssessmentResult, y: AssessmentResult)
    requires Percentage(x).Finite? && Percentage(y).Finite?
    ensures Scorable([x, y]) && WorkshopTotal([x, y]) == Percentage(x).value + Percentage(y).value
  {
    TotalOfOne(x);
    assert Init([x, y]) == [x] && Last([x, y]) == y;
    assert forall r :: r in [x, y] ==> r == x || r == y;
  }

  /** Two results of the same workshop form one group. */
  lemma SameGroupOfTwo(x: AssessmentResult, y: AssessmentResult)
    requires x.workshopId == y.workshopId
    ensures Ids([x, y]) == [x.workshopId]
    ensures Select([x, y], x.workshopId) == [x, y]
  {
    var k := x.workshopId;
    assert [] + [x] == [x] && [x] + [y] == [x, y];
    assert Ids([x]) == [k] by { IdsSnoc([], x); }
    IdsSnoc([x], y);
    assert Select([x], k) == [x] by { SelectSnoc([], x, k); }
    SelectSnoc([x], y, k);
  }

  /** Two results of different workshops form two groups, in input order. */
  lemma TwoGroupsOfTwo(x: AssessmentResult, y: AssessmentResult)
    requires x.workshopId != y.workshopId
    ensures Ids([x, y]) == [x.workshopId, y.workshopId]
    ensures Select([x, y], x.workshopId) == [x]
    ensures Select([x, y], y.workshopId) == [y]
  {
    var k, l := x.workshopId, y.workshopId;
    assert [] + [x] == [x] && [x] + [y] == [x, y];
    assert Ids([x]) == [k] by { IdsSnoc([], x); }
    IdsSnoc([x], y);
    assert Select([x], k) == [x] && Select([x], l) == [] by {
      SelectSnoc([], x, k);
      SelectSnoc([], x, l);
    }
    SelectSnoc([x], y, k);
    SelectSnoc([x], y, l);
  }

  /** With two workshops, the list of workshop scores has one entry per workshop in key order. */
  lemma ScoresOfTwoKeys(rs: seq<AssessmentResult>)
    requires Scorable(rs) && |Ids(rs)| == 2
    ensures Ids(rs)[0] in Ids(rs) && Ids(rs)[1] in Ids(rs)
    ensures WorkshopScores(rs, Ids(rs)) == [ScoreOf(rs, Ids(rs)[0]), ScoreOf(rs, Ids(rs)[1])]
  {
    var s := WorkshopScores(rs, Ids(rs));
    assert s[0] == ScoreOf(rs, Ids(rs)[0]);
    assert s[1] == ScoreOf(rs, Ids(rs)[1]);
  }

  /** The entries of two students, in order. */
  lemma EntriesOfTwo(s: Student, t: Student)
    requires HasResults(s) && Scorable(s.assessmentResults.value)
    requires HasResults(t) && Scorable(t.assessmentResults.value)
    ensures Entries([s, t]) == [BuildEntry(s), BuildEntry(t)]
  {
    var es := Entries([s, t]);
    assert |es| == 2;
    assert es[0] == BuildEntry(s);
    assert es[1] == BuildEntry(t);
  }

  lemma SumOfTwo(p: real, q: real)
    ensures Sum([p, q]) == p + q
  {
    assert Init([p, q]) == [p] && Last([p, q]) == q;
    assert Init([p]) == [] && Last([p]) == p;
    assert Sum([p]) == p;
  }

  function Mixed(): seq<AssessmentResult>
  {
    [Marked("w1", 10.0, 10.0), Marked("w2", 0.0, 10.0), Marked("w2", 0.0, 10.0)]
  }

  lemma MixedGroups()
    ensures Ids(Mixed()) == ["w1", "w2"]
    ensures Select(Mixed(), "w1") == [Mixed()[0]]
    ensures Select(Mixed(), "w2") == [Mixed()[1], Mixed()[1]]
  {
    var a, b := Mixed()[0], Mixed()[1];
    TwoGroupsOfTwo(a, b);
    assert [a, b] + [b] == Mixed();
    IdsSnoc([a, b], b);
    SelectSnoc([a, b], b, "w1");
    SelectSnoc([a, b], b, "w2");
  }

  lemma MixedScores()
    ensures Scorable(Mixed())
    ensures WorkshopScores(Mixed(), Ids(Mixed())) == [100.0, 0.0]
  {
    var a, b := Mixed()[0], Mixed()[1];
    assert Percentage(a) == Finite(100.0);
    assert Percentage(b) == Finite(0.0);
    assert Scorable(Mixed()) by {
      assert forall r :: r in Mixed() ==> r == a || r == b;
    }
    MixedGroups();
    ScoresOfTwoKeys(Mixed());
    assert ScoreOf(Mixed(), "w1") == 100.0 by {
      TotalOfOne(a);
      assert ScoreOf(Mixed(), "w1") == WorkshopScore([a]);
    }
    assert ScoreOf(Mixed(), "w2") == 0.0 by {
      TotalOfTwo(b, b);
      assert ScoreOf(Mixed(), "w2") == WorkshopScore([b, b]);
    }
  }

  /**
    One workshop with a single full mark and another with two zero marks:
    the overall score is the mean of the two workshop scores, 50, where the
    mean over all three results would be 33.33.
  */
  lemma TwoLevelMeanExample()
    ensures Scorable(Mixed()) && OverallScore(Mixed()) == 50.0
  {
    MixedScores();
    SumOfTwo(100.0, 0.0);
    ToFixed2OfTwoDecimals(5000);
  }

  function Ann(): Student
  {
    Student("a", "Ann", "Lee", "ann@example.org",
            Some([Marked("w1", 80.0, 100.0), Marked("w1", 60.0, 100.0)]))
  }

  function Ben(): Student
  {
    Student("b", "Ben", "Ode", "ben@example.org",
            Some([Marked("w1", 100.0, 100.0), Marked("w2", 0.0, 50.0)]))
  }

  function Cal(): Student
  {
    Student("c", "Cal", "Ray", "cal@example.org", Some([]))
  }

  lemma AnnOverall()
    ensures Scorable(Ann().assessmentResults.value)
    ensures Ids(Ann().assessmentResults.value) == ["w1"]
    ensures OverallScore(Ann().assessmentResults.value) == 70.0
  {
    var x, y := Marked("w1", 80.0, 100.0), Marked("w1", 60.0, 100.0);
    var rs := [x, y];
    assert Ann().assessmentResults.value == rs;
    assert Percentage(x) == Finite(80.0);
    assert Percentage(y) == Finite(60.0);
    TotalOfTwo(x, y);
    SameGroupOfTwo(x, y);
    assert WorkshopScore(rs) == 70.0;
    var scores := WorkshopScores(rs, Ids(rs));
    assert scores == [70.0];
    assert Sum(scores) == 70.0 by {
      assert Init(scores) == [];
    }
    assert MeanOfWorkshops(rs) == 70.0;
    ToFixed2OfTwoDecimals(7000);
  }

  lemma AnnEntry()
    ensures HasResults(Ann()) && Scorable(Ann().assessmentResults.value)
    ensures BuildEntry(Ann()) == Entry("a", "Ann Lee", "ann@example.org", 70.0, 2, 1)
  {
    AnnOverall();
  }

  lemma BenScores()
    ensures Scorable(Ben().assessmentResults.value)
    ensures Ids(Ben().assessmentResults.value) == ["w1", "w2"]
    ensures WorkshopScores(Ben().assessmentResults.value, ["w1", "w2"]) == [100.0, 0.0]
  {
    var x, y := Marked("w1", 100.0, 100.0), Marked("w2", 0.0, 50.0);
    var rs := [x, y];
    assert Ben().assessmentResults.value == rs;
    assert Percentage(x) == Finite(100.0);
    assert Percentage(y) == Finite(0.0);
    TotalOfTwo(x, y);
    TwoGroupsOfTwo(x, y);
    ScoresOfTwoKeys(rs);
    assert ScoreOf(rs, "w1") == 100.0 by {
      TotalOfOne(x);
      assert ScoreOf(rs, "w1") == WorkshopScore([x]);
    }
    assert ScoreOf(rs, "w2") == 0.0 by {
      TotalOfOne(y);
      assert ScoreOf(rs, "w2") == WorkshopScore([y]);
    }
  }

  lemma BenName()
    ensures Ben().firstName + " " + Ben().lastName == "Ben Ode"
  {
    assert "Ben" + " " == "Ben ";
  }

  lemma BenOverall()
    ensures Scorable(Ben().assessmentResults.value)
    ensures OverallScore(Ben().assessmentResults.value) == 50.0
    ensures |Ids(Ben().assessmentResults.value)| == 2
  {
    BenScores();
    var scores := WorkshopScores(Ben().assessmentResults.value, ["w1", "w2"]);
    assert Sum(scores) == 100.0 by {
      assert Init(scores) == [100.0] && Init([100.0]) == [];
    }
    assert MeanOfWorkshops(Ben().assessmentResults.value) == 50.0;
    ToFixed2OfTwoDecimals(5000);
  }

  lemma BenEntry()
    ensures HasResults(Ben()) && Scorable(Ben().assessmentResults.value)
    ensures BuildEntry(Ben()) == Entry("b", "Ben Ode", "ben@example.org", 50.0, 2, 2)
  {
    BenOverall();
    BenName();
  }

  lemma ExampleFilter()
    ensures Eligible([Ben(), Cal(), Ann()]) == [Ben(), Ann()]
  {
    var ss := [Ben(), Cal(), Ann()];
    assert HasResults(Ben()) && !HasResults(Cal()) && HasResults(Ann());
    assert ss[1..] == [Cal(), Ann()];
    assert ss[1..][1..] == [Ann()];
    assert ss[1..][1..][1..] == [];
  }

  lemma KeptEntries()
    ensures HasResults(Ann()) && Scorable(Ann().assessmentResults.value)
    ensures HasResults(Ben()) && Scorable(Ben().assessmentResults.value)
    ensures Entries([Ben(), Ann()]) == [BuildEntry(Ben()), BuildEntry(Ann())]
  {
    BenScores();
    AnnOverall();
    EntriesOfTwo(Ben(), Ann());
  }

  lemma ExampleEntries()
    ensures HasResults(Ann()) && Scorable(Ann().assessmentResults.value)
    ensures HasResults(Ben()) && Scorable(Ben().assessmentResults.value)
    ensures Entries(Eligible([Ben(), Cal(), Ann()])) == [BuildEntry(Ben()), BuildEntry(Ann())]
  {
    ExampleFilter();
    KeptEntries();
  }

  lemma ExampleSort(ea: Entry, eb: Entry)
    requires ea.score == 70.0 && eb.score == 50.0
    ensures Ranking.SortByScore([eb, ea]) == [ea, eb]
  {
    assert [ea][1..] == [];
    assert [eb, ea][1..] == [ea];
    assert Ranking.SortByScore([ea]) == [ea];
    assert Ranking.Insert(eb, []) == [eb];
    assert Ranking.Insert(eb, [ea]) == [ea] + Ranking.Insert(eb, []);
  }

  lemma ExampleGradable()
    ensures Gradable([Ben(), Cal(), Ann()])
  {
    var ss := [Ben(), Cal(), Ann()];
    forall s | s in ss && s.assessmentResults.Some?
      ensures Scorable(s.assessmentResults.value)
    {
      if s == Ben() {
        BenScores();
      } else if s == Ann() {
        AnnEntry();
      } else {
        assert s == Cal();
      }
    }
  }

  /** Ben comes first in the input but ranks below Ann; Cal has no results and gets no entry. */
  lemma LeaderboardExample()
    ensures Gradable([Ben(), Cal(), Ann()])
    ensures ProcessStudentData([Ben(), Cal(), Ann()]) ==
            [Entry("a", "Ann Lee", "ann@example.org", 70.0, 2, 1),
             Entry("b", "Ben Ode", "ben@example.org", 50.0, 2, 2)]
  {
    ExampleGradable();
    ExampleEntries();
    AnnEntry();
    BenEntry();
    ExampleSort(BuildEntry(Ann()), BuildEntry(Ben()));
  }
}
