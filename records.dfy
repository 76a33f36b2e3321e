/**
  The records the leaderboard consumes and produces: students with their
  assessment results as they arrive from the rankings endpoint, and the
  leaderboard entries built from them. Also the percentage one result
  contributes to its workshop's average.
*/
module Records {
  import opened Wrappers
  import opened JsNumber

  /** Workshop identifiers are compared as object keys, i.e. as strings. */
  type WorkshopId = string

  /** The `score` object of a result: obtained and total marks. */
  datatype Score = Score(obtainedMarks: Mark, totalMarks: Mark)

  /** One assessment attempt; `score` is None when the field is absent or null. */
  datatype AssessmentResult = AssessmentResult(workshopId: WorkshopId, score: Option<Score>)

  /**
    A student record: `id` stands for the record's `_id`, and
    `assessmentResults` is None when the field is absent or null.
  */
  datatype Student = Student(
    id: string,
    firstName: string,
    lastName: string,
    email: string,
    assessmentResults: Option<seq<AssessmentResult>>)

  /** A row of the leaderboard. */
  datatype Entry = Entry(
    id: string,
    name: string,
    email: string,
    score: real,
    assessmentCount: nat,
    workshopCount: nat)

  /** The marks of a score as numbers, when both coerce to a finite number (`null` counts as 0). */
  function NumericMarks(score: Option<Score>): Option<(real, real)>
  {
    match score
    case None => None
    case Some(s) =>
      match (s.obtainedMarks, s.totalMarks)
      case (Undefined, _) => None
      case (_, Undefined) => None
      case (o, t) => Some((if o.Num? then o.v else 0.0, if t.Num? then t.v else 0.0))
  }

  /**
    `result.score?.obtainedMarks / result.score?.totalMarks * 100 || 0`.
    A missing score or mark gives 0, as does 0/0; a non-zero mark over a zero
    or null total is an infinity and is not caught by the fallback.
  */
  function Percentage(r: AssessmentResult): (p: Number)
    ensures !p.NaN?
    ensures match NumericMarks(r.score)
            case None => p == Finite(0.0)
            case Some((o, t)) =>
              if t != 0.0 then p == Finite(o / t * 100.0)
              else if o > 0.0 then p == PosInfinity
              else if o < 0.0 then p == NegInfinity
              else p == Finite(0.0)
  {
    var raw := match r.score
               case None => NaN
               case Some(s) => Times100(Divide(ToNumber(s.obtainedMarks), ToNumber(s.totalMarks)));
    OrZero(raw)
  }

  /** `student.assessmentResults && student.assessmentResults.length > 0`. */
  predicate HasResults(s: Student)
  {
    s.assessmentResults.Some? && |s.assessmentResults.value| > 0
  }
}
