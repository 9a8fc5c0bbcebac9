/**
 * The per-student aggregation query of `warning_scan` (backend/app.py:372-396):
 * final transcript rows LEFT OUTER JOINed to their course for its credit
 * count, grouped by student into
 *   S      = SUM(DiemHe4 * credits-or-0),
 *   W      = SUM(credits-or-0),
 *   DebtTC = SUM(CASE WHEN DiemHe4 < 1.0 THEN credits ELSE 0 END),
 * then the roster LEFT OUTER JOINed to those groups, GPA4 = S / NULLIF(W, 0),
 * and every NULL read as 0 by `float(x or 0.0)`.
 * SQL NULL is `None` here, and SUM follows SQL: NULL terms are skipped and a
 * sum with no non-NULL term is NULL.
 */
module Aggregation {
  import opened Wrappers

  /** A row of the student roster (SinhVien): its id (MaSV) and class (MaLop, nullable). */
  datatype Student = Student(id: string, classId: Option<string>)

  /** A transcript row (KetQuaHocTap): student, course (MaHP), 4-point grade (DiemHe4, nullable), LaDiemCuoiCung. */
  datatype Grade = Grade(student: string, course: string, grade4: Option<real>, isFinal: bool)

  /** The course table (HocPhan): course id to credit count (SoTinChi, nullable). */
  type Courses = map<string, Option<real>>

  /** What the scan loop sees for one student, after `float(x or 0.0)`. */
  datatype Metric = Metric(student: string, gpa4: real, debt: real)

  /** The three grouped sums of one student; all NULL when the student has no final row. */
  datatype Sums = Sums(s: Option<real>, w: Option<real>, debt: Option<real>)

  /** SoTinChi after the outer join: NULL when the course is missing or has no credit count. */
  function Credits(courses: Courses, course: string): Option<real> {
    if course in courses then courses[course] else None
  }

  /** One step of SQL SUM: a NULL term is skipped; the first non-NULL term starts the sum. */
  function SumStep(acc: Option<real>, x: Option<real>): (r: Option<real>)
    ensures r.None? <==> acc.None? && x.None?
    ensures r.Some? ==> r.value == acc.GetOr(0.0) + x.GetOr(0.0)
  {
    match x
    case None => acc
    case Some(v) => Some(acc.GetOr(0.0) + v)
  }

  /** Only the final rows of the student enter the group (the `.filter(... LaDiemCuoiCung.is_(True))`). */
  predicate Counts(row: Grade, sid: string) {
    row.student == sid && row.isFinal
  }

  /** `CASE WHEN SoTinChi IS NOT NULL THEN SoTinChi ELSE 0 END`. */
  function Weight(courses: Courses, row: Grade): real {
    Credits(courses, row.course).GetOr(0.0)
  }

  /** `DiemHe4 * weight`: NULL when the grade is NULL. */
  function Product(courses: Courses, row: Grade): Option<real> {
    if row.grade4.None? then None else Some(row.grade4.value * Weight(courses, row))
  }

  /** `CASE WHEN DiemHe4 < 1.0 THEN SoTinChi ELSE 0 END`: a NULL grade fails the test. */
  function DebtTerm(courses: Courses, row: Grade): Option<real> {
    if row.grade4.Some? && row.grade4.value < 1.0 then Credits(courses, row.course) else Some(0.0)
  }

  /** The GROUP BY MaSV sums of one student. */
  function GroupSums(rows: seq<Grade>, courses: Courses, sid: string): Sums {
    if rows == [] then Sums(None, None, None)
    else
      var rest := GroupSums(rows[1..], courses, sid);
      if Counts(rows[0], sid) then
        Sums(SumStep(rest.s, Product(courses, rows[0])),
             SumStep(rest.w, Some(Weight(courses, rows[0]))),
             SumStep(rest.debt, DebtTerm(courses, rows[0])))
      else rest
  }

  /** `S / NULLIF(W, 0)`: NULL when S or W is NULL or W is zero. */
  function Gpa4Column(g: Sums): Option<real> {
    if g.s.None? || g.w.None? || g.w.value == 0.0 then None else Some(g.s.value / g.w.value)
  }

  /** `float(x or 0.0)`. */
  function OrZero(x: Option<real>): real {
    x.GetOr(0.0)
  }

  function StudentMetric(rows: seq<Grade>, courses: Courses, sid: string): Metric {
    var g := GroupSums(rows, courses, sid);
    Metric(sid, OrZero(Gpa4Column(g)), OrZero(g.debt))
  }

  /** `if ma_lop: q = q.filter(SinhVien.MaLop == ma_lop)`: a missing or empty filter keeps everyone. */
  predicate InClass(st: Student, classFilter: Option<string>) {
    classFilter.None? || classFilter.value == "" || st.classId == Some(classFilter.value)
  }

  /** The roster rows the scan visits: exactly the roster students of the requested class. */
  function Considered(roster: seq<Student>, classFilter: Option<string>): (r: seq<Student>)
    ensures forall st :: st in r <==> st in roster && InClass(st, classFilter)
    ensures |r| <= |roster|
  {
    if roster == [] then []
    else (if InClass(roster[0], classFilter) then [roster[0]] else [])
         + Considered(roster[1..], classFilter)
  }

  /** The rows of the scan's query: one metric per considered student, in the same order. */
  function Metrics(roster: seq<Student>, rows: seq<Grade>, courses: Courses, classFilter: Option<string>): (ms: seq<Metric>)
    ensures var c := Considered(roster, classFilter);
            |ms| == |c| && forall k :: 0 <= k < |ms| ==> ms[k] == StudentMetric(rows, courses, c[k].id)
  {
    var c := Considered(roster, classFilter);
    seq(|c|, k requires 0 <= k < |c| => StudentMetric(rows, courses, c[k].id))
  }

  // ---------------------------------------------------------------------
  // Reference definitions without NULLs, and the lemmas tying them to the query.

  /** Number of final rows of the student. */
  function FinalCount(rows: seq<Grade>, sid: string): nat {
    if rows == [] then 0 else (if Counts(rows[0], sid) then 1 else 0) + FinalCount(rows[1..], sid)
  }

  /** The credit weight one row adds: its weight when it is a final row of the student. */
  function RowWeight(courses: Courses, row: Grade, sid: string): real {
    if Counts(row, sid) then Weight(courses, row) else 0.0
  }

  /** The grade points one row adds: grade times weight when it is a graded final row of the student. */
  function RowPoints(courses: Courses, row: Grade, sid: string): real {
    if Counts(row, sid) && row.grade4.Some? then row.grade4.value * Weight(courses, row) else 0.0
  }

  /** Total credit weight of the final rows (a missing credit count weighs 0). */
  function TotalWeight(rows: seq<Grade>, courses: Courses, sid: string): real {
    if rows == [] then 0.0 else RowWeight(courses, rows[0], sid) + TotalWeight(rows[1..], courses, sid)
  }

  /** Grade points of the final rows that carry a grade. */
  function GradePoints(rows: seq<Grade>, courses: Courses, sid: string): real {
    if rows == [] then 0.0 else RowPoints(courses, rows[0], sid) + GradePoints(rows[1..], courses, sid)
  }

  /** A final row owes its credits when its grade is below 1.0. */
  predicate IsDebt(courses: Courses, row: Grade, sid: string) {
    Counts(row, sid) && row.grade4.Some? && row.grade4.value < 1.0 && Credits(courses, row.course).Some?
  }

  /** Credits of the final rows graded below 1.0 whose course has a credit count. */
  function DebtCredits(rows: seq<Grade>, courses: Courses, sid: string): real {
    if rows == [] then 0.0
    else (if IsDebt(courses, rows[0], sid) then Credits(courses, rows[0].course).value else 0.0)
         + DebtCredits(rows[1..], courses, sid)
  }

  /** W is NULL exactly when there is no final row, and otherwise the plain credit total. */
  lemma {:induction false} GroupWeightClosedForm(rows: seq<Grade>, courses: Courses, sid: string)
    ensures var g := GroupSums(rows, courses, sid);
            && (g.w.None? <==> FinalCount(rows, sid) == 0)
            && (g.w.Some? ==> g.w.value == TotalWeight(rows, courses, sid))
            && (g.w.None? ==> g.s.None? && g.debt.None?)
  {
    if rows != [] {
      GroupWeightClosedForm(rows[1..], courses, sid);
      if FinalCount(rows[1..], sid) == 0 {
        NoFinalRowsNoWeight(rows[1..], courses, sid);
      }
    }
  }

  /** A present S is the plain grade-point total, and a NULL S goes with a grade-point total of 0. */
  lemma {:induction false} GroupPointsClosedForm(rows: seq<Grade>, courses: Courses, sid: string)
    ensures var g := GroupSums(rows, courses, sid);
            && (g.s.Some? ==> g.s.value == GradePoints(rows, courses, sid))
            && (g.s.None? ==> GradePoints(rows, courses, sid) == 0.0)
  {
    if rows != [] {
      GroupPointsClosedForm(rows[1..], courses, sid);
      var rest := GroupSums(rows[1..], courses, sid);
      if Counts(rows[0], sid) {
        assert GroupSums(rows, courses, sid).s == SumStep(rest.s, Product(courses, rows[0]));
      } else {
        assert GroupSums(rows, courses, sid) == rest;
      }
    }
  }

  /** DebtTC read as `float(x or 0.0)` is the plain debt-credit total. */
  lemma {:induction false} GroupDebtClosedForm(rows: seq<Grade>, courses: Courses, sid: string)
    ensures OrZero(GroupSums(rows, courses, sid).debt) == DebtCredits(rows, courses, sid)
  {
    if rows != [] {
      GroupDebtClosedForm(rows[1..], courses, sid);
    }
  }

  /**
   * What the scan compares: GPA4 is the credit-weighted mean of the graded
   * final rows over ALL final-row credits (rows without a grade weigh in W
   * but add nothing to S), 0 when that weight is 0; debt is the credit
   * total of final rows graded below 1.0. A student without final rows
   * (kept by the outer join) gets 0 and 0.
   */
  lemma StudentMetricClosedForm(rows: seq<Grade>, courses: Courses, sid: string)
    ensures var m := StudentMetric(rows, courses, sid);
            var w := TotalWeight(rows, courses, sid);
            && m.student == sid
            && m.gpa4 == (if w == 0.0 then 0.0 else GradePoints(rows, courses, sid) / w)
            && m.debt == DebtCredits(rows, courses, sid)
            && (FinalCount(rows, sid) == 0 ==> m.gpa4 == 0.0 && m.debt == 0.0)
  {
    GroupWeightClosedForm(rows, courses, sid);
    GroupPointsClosedForm(rows, courses, sid);
    GroupDebtClosedForm(rows, courses, sid);
    if FinalCount(rows, sid) == 0 {
      NoFinalRowsNoWeight(rows, courses, sid);
    }
  }

  lemma {:induction false} NoFinalRowsNoWeight(rows: seq<Grade>, courses: Courses, sid: string)
    requires FinalCount(rows, sid) == 0
    ensures TotalWeight(rows, courses, sid) == 0.0
    ensures GradePoints(rows, courses, sid) == 0.0
    ensures DebtCredits(rows, courses, sid) == 0.0
  {
    if rows != [] {
      NoFinalRowsNoWeight(rows[1..], courses, sid);
    }
  }

  /** A row that is not final, or belongs to someone else, changes nothing. */
  lemma {:induction false} IgnoredRow(a: seq<Grade>, row: Grade, b: seq<Grade>, courses: Courses, sid: string)
    requires !Counts(row, sid)
    ensures GroupSums(a + [row] + b, courses, sid) == GroupSums(a + b, courses, sid)
  {
    if a == [] {
      assert a + [row] + b == [row] + b;
      assert ([row] + b)[1..] == b;
      assert a + b == b;
    } else {
      assert (a + [row] + b)[1..] == a[1..] + [row] + b;
      assert (a + b)[1..] == a[1..] + b;
      IgnoredRow(a[1..], row, b, courses, sid);
    }
  }

  /** A final row without a grade adds its credits to W and nothing to S or to the debt. */
  lemma {:induction false} UngradedRow(a: seq<Grade>, row: Grade, b: seq<Grade>, courses: Courses, sid: string)
    requires Counts(row, sid) && row.grade4.None?
    ensures TotalWeight(a + [row] + b, courses, sid) == TotalWeight(a + b, courses, sid) + Weight(courses, row)
    ensures GradePoints(a + [row] + b, courses, sid) == GradePoints(a + b, courses, sid)
    ensures DebtCredits(a + [row] + b, courses, sid) == DebtCredits(a + b, courses, sid)
  {
    if a == [] {
      assert a + [row] + b == [row] + b;
      assert ([row] + b)[1..] == b;
      assert a + b == b;
    } else {
      assert (a + [row] + b)[1..] == a[1..] + [row] + b;
      assert (a + b)[1..] == a[1..] + b;
      UngradedRow(a[1..], row, b, courses, sid);
    }
  }

  /** Grades on the 0-4 scale and non-negative credits. */
  predicate WellScaled(rows: seq<Grade>, courses: Courses) {
    && (forall k :: 0 <= k < |rows| && rows[k].grade4.Some? ==> 0.0 <= rows[k].grade4.value <= 4.0)
    && (forall c :: c in courses && courses[c].Some? ==> courses[c].value >= 0.0)
  }

  lemma WellScaledTail(rows: seq<Grade>, courses: Courses)
    requires rows != [] && WellScaled(rows, courses)
    ensures WellScaled(rows[1..], courses)
    ensures Weight(courses, rows[0]) >= 0.0
    ensures rows[0].grade4.Some? ==> 0.0 <= rows[0].grade4.value <= 4.0
  {
    assert forall k :: 0 <= k < |rows[1..]| ==> rows[1..][k] == rows[k + 1];
  }

  lemma {:induction false} PointsWithinScale(rows: seq<Grade>, courses: Courses, sid: string)
    requires WellScaled(rows, courses)
    ensures 0.0 <= GradePoints(rows, courses, sid) <= 4.0 * TotalWeight(rows, courses, sid)
  {
    if rows != [] {
      WellScaledTail(rows, courses);
      PointsWithinScale(rows[1..], courses, sid);
      RowWithinScale(courses, rows[0], sid);
    }
  }

  /** One row's grade points lie between 0 and 4 times its weight. */
  lemma RowWithinScale(courses: Courses, row: Grade, sid: string)
    requires Weight(courses, row) >= 0.0 && (row.grade4.Some? ==> 0.0 <= row.grade4.value <= 4.0)
    ensures 0.0 <= RowPoints(courses, row, sid) <= 4.0 * RowWeight(courses, row, sid)
  {
    if Counts(row, sid) && row.grade4.Some? {
      ScaledProduct(row.grade4.value, Weight(courses, row));
    }
  }

  lemma {:induction false} DebtWithinWeight(rows: seq<Grade>, courses: Courses, sid: string)
    requires WellScaled(rows, courses)
    ensures 0.0 <= DebtCredits(rows, courses, sid) <= TotalWeight(rows, courses, sid)
  {
    if rows != [] {
      WellScaledTail(rows, courses);
      DebtWithinWeight(rows[1..], courses, sid);
    }
  }

  /** With grades on the 4-point scale and non-negative credits, GPA4 stays within [0, 4] and debt within [0, W]. */
  lemma MetricWithinScale(rows: seq<Grade>, courses: Courses, sid: string)
    requires WellScaled(rows, courses)
    ensures var m := StudentMetric(rows, courses, sid);
            0.0 <= m.gpa4 <= 4.0 && 0.0 <= m.debt <= TotalWeight(rows, courses, sid)
  {
    StudentMetricClosedForm(rows, courses, sid);
    PointsWithinScale(rows, courses, sid);
    DebtWithinWeight(rows, courses, sid);
    NonNegativeWeight(rows, courses, sid);
    var w := TotalWeight(rows, courses, sid);
    var p := GradePoints(rows, courses, sid);
    if w != 0.0 {
      MeanWithinScale(p, w);
    }
  }

  lemma ScaledProduct(g: real, w: real)
    requires 0.0 <= g <= 4.0 && w >= 0.0
    ensures 0.0 <= g * w <= 4.0 * w
  {
    assert (4.0 - g) * w >= 0.0;
  }

  lemma MeanWithinScale(p: real, w: real)
    requires w > 0.0 && 0.0 <= p <= 4.0 * w
    ensures 0.0 <= p / w <= 4.0
  {
    var q := p / w;
    assert q * w == p;
  }

  lemma {:induction false} NonNegativeWeight(rows: seq<Grade>, courses: Courses, sid: string)
    requires WellScaled(rows, courses)
    ensures TotalWeight(rows, courses, sid) >= 0.0
  {
    if rows != [] {
      WellScaledTail(rows, courses);
      NonNegativeWeight(rows[1..], courses, sid);
    }
  }

  /**
   * The outer join keeps every roster student of the requested class: each one
   * has its metric among the query rows, and one with no final row reads as
   * GPA 0 and debt 0.
   */
  lemma MetricsCoverRoster(roster: seq<Student>, rows: seq<Grade>, courses: Courses, classFilter: Option<string>, st: Student)
    requires st in roster && InClass(st, classFilter)
    ensures StudentMetric(rows, courses, st.id) in Metrics(roster, rows, courses, classFilter)
    ensures FinalCount(rows, st.id) == 0 ==> Metric(st.id, 0.0, 0.0) in Metrics(roster, rows, courses, classFilter)
  {
    var c := Considered(roster, classFilter);
    var ms := Metrics(roster, rows, courses, classFilter);
    var k :| 0 <= k < |c| && c[k] == st;
    assert ms[k] == StudentMetric(rows, courses, st.id);
    if FinalCount(rows, st.id) == 0 {
      StudentMetricClosedForm(rows, courses, st.id);
      NoFinalRowsNoWeight(rows, courses, st.id);
    }
  }

  /** Only roster students of the requested class are scanned. */
  lemma MetricsFollowRoster(roster: seq<Student>, rows: seq<Grade>, courses: Courses, classFilter: Option<string>, m: Metric)
    requires m in Metrics(roster, rows, courses, classFilter)
    ensures exists st :: st in roster && InClass(st, classFilter) && st.id == m.student
  {
    var c := Considered(roster, classFilter);
    var ms := Metrics(roster, rows, courses, classFilter);
    var k :| 0 <= k < |ms| && ms[k] == m;
    assert c[k] in c;
  }

  /** Two final rows of 3 credits graded 1.5 and 1.0: GPA4 is (4.5 + 3.0) / 6 = 1.25 and no credit is owed. */
  lemma WeightedMeanExample()
    ensures StudentMetric([Grade("X", "A", Some(1.5), true), Grade("X", "B", Some(1.0), true)],
                          map["A" := Some(3.0), "B" := Some(3.0)], "X")
         == Metric("X", 1.25, 0.0)
  {
    var rows := [Grade("X", "A", Some(1.5), true), Grade("X", "B", Some(1.0), true)];
    var courses: Courses := map["A" := Some(3.0), "B" := Some(3.0)];
    assert rows[1..] == [rows[1]] && rows[1..][1..] == [];
    assert GroupSums(rows[1..], courses, "X") == Sums(Some(3.0), Some(3.0), Some(0.0));
  }
}
