/**
  `processStudentData`: from the student records of the rankings payload to
  the ordered leaderboard. Students without results are dropped, each other
  student becomes one entry, and the entries are sorted by score, highest
  first, ties in input order.
*/
module Leaderboard {
  import opened Wrappers
  import opened Records
  import opened Grouping
  import opened Scoring
  import opened Ranking

  /** `studentsData.filter(...)`: the students with at least one result, in input order. */
  function Eligible(ss: seq<Student>): (out: seq<Student>)
    ensures forall s :: s in out ==> HasResults(s) && s in ss
  {
    if ss == [] then []
    else (if HasResults(ss[0]) then [ss[0]] else []) + Eligible(ss[1..])
  }

  /** What the model needs of the payload: no result's percentage is an infinity. */
  predicate Gradable(ss: seq<Student>)
  {
    forall s :: s in ss && s.assessmentResults.Some? ==> Scorable(s.assessmentResults.value)
  }

  /** The entry the `.map` callback builds for one student. */
  function BuildEntry(s: Student): (e: Entry)
    requires HasResults(s) && Scorable(s.assessmentResults.value)
    ensures e.id == s.id && e.email == s.email && e.name == s.firstName + " " + s.lastName
    ensures e.assessmentCount == |s.assessmentResults.value| > 0
    ensures e.workshopCount == |IdSet(s.assessmentResults.value)| > 0
  {
    var rs := s.assessmentResults.value;
    WorkshopCountIsDistinctIds(rs);
    IdsMembership(rs, rs[0].workshopId);
    Entry(
      id := s.id,
      name := s.firstName + " " + s.lastName,
      email := s.email,
      score := OverallScore(rs),
      assessmentCount := |rs|,
      workshopCount := |Ids(rs)|)
  }

  function Entries(ss: seq<Student>): (es: seq<Entry>)
    requires forall s :: s in ss ==> HasResults(s) && Scorable(s.assessmentResults.value)
    ensures |es| == |ss|
  {
    seq(|ss|, i requires 0 <= i < |ss| => BuildEntry(ss[i]))
  }

  /** The leaderboard: filter, build one entry per student, sort by score. */
  function ProcessStudentData(ss: seq<Student>): (board: seq<Entry>)
    requires Gradable(ss)
    ensures SortedDesc(board)
    ensures multiset(board) == multiset(Entries(Eligible(ss)))
    ensures |board| == |Eligible(ss)|
  {
    var es := Entries(Eligible(ss));
    SortByScoreSorted(es);
    assert |multiset(SortByScore(es))| == |multiset(es)|;
    SortByScore(es)
  }

  /** A student is kept exactly as often as it occurs if it has results, and dropped otherwise. */
  lemma {:induction false} EligibleMultiplicity(ss: seq<Student>, s: Student)
    ensures multiset(Eligible(ss))[s] == if HasResults(s) then multiset(ss)[s] else 0
  {
    if ss != [] {
      EligibleMultiplicity(ss[1..], s);
      assert ss == [ss[0]] + ss[1..];
    }
  }

  /**
    The counts of an entry: `assessmentCount` is the total size of the
    workshop groups, i.e. the number of results, and `workshopCount` is the
    number of distinct workshop ids among them.
  */
  lemma BuildEntryCounts(s: Student)
    requires HasResults(s) && Scorable(s.assessmentResults.value)
    ensures BuildEntry(s).assessmentCount == SumSizes(s.assessmentResults.value, Ids(s.assessmentResults.value))
    ensures BuildEntry(s).assessmentCount == |s.assessmentResults.value| > 0
    ensures BuildEntry(s).workshopCount == |IdSet(s.assessmentResults.value)| > 0
  {
    var rs := s.assessmentResults.value;
    GroupSizesSum(rs);
    WorkshopCountIsDistinctIds(rs);
    OverallScoreIsRoundedMean(rs);
  }

  /**
    The score of an entry is the mean of its workshop means up to the
    rounding, and a percentage when the marks are well formed.
  */
  lemma BuildEntryScore(s: Student)
    requires HasResults(s) && Scorable(s.assessmentResults.value)
    ensures -1.0 / 200.0 <= BuildEntry(s).score - MeanOfWorkshops(s.assessmentResults.value) <= 1.0 / 200.0
    ensures (forall r :: r in s.assessmentResults.value ==> WellFormed(r)) ==> 0.0 <= BuildEntry(s).score <= 100.0
  {
    var rs := s.assessmentResults.value;
    OverallScoreIsRoundedMean(rs);
    if forall r :: r in rs ==> WellFormed(r) {
      OverallScoreBounds(rs);
    }
  }

  /** Entries with equal scores appear in the order of their students in the input. */
  lemma ProcessStudentDataStable(ss: seq<Student>, v: real)
    requires Gradable(ss)
    ensures WithScore(ProcessStudentData(ss), v) == WithScore(Entries(Eligible(ss)), v)
  {
    SortByScoreStable(Entries(Eligible(ss)), v);
  }

  /** Every entry comes from an input student with results, and every such student has its entry. */
  lemma ProcessStudentDataEntries(ss: seq<Student>, e: Entry)
    requires Gradable(ss)
    ensures e in ProcessStudentData(ss) <==>
            exists s :: s in ss && HasResults(s) && BuildEntry(s) == e
  {
    var es := Entries(Eligible(ss));
    assert e in ProcessStudentData(ss) <==> e in multiset(es);
    if e in es {
      EntryHasStudent(ss, e);
    }
    if exists s :: s in ss && HasResults(s) && BuildEntry(s) == e {
      var s :| s in ss && HasResults(s) && BuildEntry(s) == e;
      StudentHasEntry(ss, s);
    }
  }

  lemma EntryHasStudent(ss: seq<Student>, e: Entry)
    requires Gradable(ss)
    requires e in Entries(Eligible(ss))
    ensures exists s :: s in ss && HasResults(s) && BuildEntry(s) == e
  {
    var el := Eligible(ss);
    var es := Entries(el);
    var i :| 0 <= i < |es| && es[i] == e;
    assert el[i] in el;
    assert BuildEntry(el[i]) == e;
  }

  lemma StudentHasEntry(ss: seq<Student>, s: Student)
    requires Gradable(ss)
    requires s in ss && HasResults(s)
    ensures BuildEntry(s) in Entries(Eligible(ss))
  {
    var el := Eligible(ss);
    EligibleMultiplicity(ss, s);
    assert s in multiset(el);
    var i :| 0 <= i < |el| && el[i] == s;
    assert Entries(el)[i] == BuildEntry(s);
  }

  /** Any stable descending sort of the entries, as `Array.prototype.sort` performs, gives this leaderboard. */
  lemma ProcessStudentDataIsTheStableSort(ss: seq<Student>, t: seq<Entry>)
    requires Gradable(ss)
    requires SortedDesc(t)
    requires forall v :: WithScore(t, v) == WithScore(Entries(Eligible(ss)), v)
    ensures t == ProcessStudentData(ss)
  {
    StableSortIsSortByScore(Entries(Eligible(ss)), t);
  }
}
