/**
  The grade-point average of the gradebook: a credit-weighted mean of the
  scores, computed exactly over the reals, with the two guards against an
  empty list and a zero credit total; and the per-semester average, which
  filters the list by semester first.
 */
module Grades {
  import opened Courses

  /** Σ credits over the list, accumulated front to back. */
  function TotalCredits(s: seq<Course>): int {
    if s == [] then 0 else TotalCredits(s[..|s| - 1]) + s[|s| - 1].credits
  }

  /** Σ score × credits over the list, accumulated front to back. */
  function WeightedTotal(s: seq<Course>): real {
    if s == [] then 0.0
    else WeightedTotal(s[..|s| - 1]) + s[|s| - 1].score * s[|s| - 1].credits as real
  }

  /**
    The average `calculate_gpa` reports: 0 for an empty list or a zero
    credit total, otherwise the number that, weighted by the credit total,
    gives back the weighted score total.
   */
  function Gpa(s: seq<Course>): (r: real)
    ensures s == [] || TotalCredits(s) == 0 ==> r == 0.0
    ensures TotalCredits(s) != 0 ==> r * TotalCredits(s) as real == WeightedTotal(s)
  {
    if s == [] then 0.0
    else if TotalCredits(s) == 0 then 0.0
    else WeightedTotal(s) / TotalCredits(s) as real
  }

  /**
    `calculate_gpa`: one pass over the list with the two accumulators, then
    the guarded division.
   */
  method CalculateGpa(data: seq<Course>) returns (gpa: real)
    ensures gpa == Gpa(data)
  {
    if |data| == 0 {
      return 0.0;
    }
    var total := 0.0;
    var totalCredits := 0;
    for i := 0 to |data|
      invariant total == WeightedTotal(data[..i])
      invariant totalCredits == TotalCredits(data[..i])
    {
      assert data[..i + 1][..i] == data[..i];
      total := total + data[i].score * data[i].credits as real;
      totalCredits := totalCredits + data[i].credits;
    }
    assert data[..|data|] == data;
    gpa := if totalCredits != 0 then total / totalCredits as real else 0.0;
  }

  /**
    The comprehension `[c for c in data if c["semester"] == semester]`,
    walked front to back like the list: every record it keeps is of that
    semester.
   */
  function BySemester(s: seq<Course>, semester: int): (r: seq<Course>)
    ensures |r| <= |s|
    ensures forall k :: 0 <= k < |r| ==> r[k].semester == semester
  {
    if s == [] then []
    else
      BySemester(s[..|s| - 1], semester)
        + (if s[|s| - 1].semester == semester then [s[|s| - 1]] else [])
  }

  /** `calculate_gpa_by_semester`: filter by semester, then average. */
  method CalculateGpaBySemester(data: seq<Course>, semester: int) returns (gpa: real)
    ensures gpa == Gpa(BySemester(data, semester))
  {
    var filtered := BySemester(data, semester);
    gpa := CalculateGpa(filtered);
  }

  // ---------------------------------------------------------------------------
  // Properties of the average

  /** Both sums split over a concatenation. */
  lemma {:induction false} TotalsAppend(a: seq<Course>, b: seq<Course>)
    ensures TotalCredits(a + b) == TotalCredits(a) + TotalCredits(b)
    ensures WeightedTotal(a + b) == WeightedTotal(a) + WeightedTotal(b)
  {
    if b == [] {
      assert a + b == a;
    } else {
      var b' := b[..|b| - 1];
      assert (a + b)[..|a + b| - 1] == a + b';
      assert (a + b)[|a + b| - 1] == b[|b| - 1];
      TotalsAppend(a, b');
    }
  }

  /** Adding one weighted term keeps the running sum within its bounds. */
  lemma StepBounds(lo: real, hi: real, t: real, acc: real, x: real, w: real)
    requires lo * t <= acc <= hi * t
    requires w >= 0.0 && lo <= x <= hi
    ensures lo * (t + w) <= acc + x * w <= hi * (t + w)
  {
    assert (x - lo) * w >= 0.0;
    assert (hi - x) * w >= 0.0;
  }

  /** With non-negative credits, the weighted total lies between lo and hi times the credit total. */
  lemma {:induction false} WeightedTotalBounds(s: seq<Course>, lo: real, hi: real)
    requires forall k :: 0 <= k < |s| ==> s[k].credits >= 0
    requires forall k :: 0 <= k < |s| ==> lo <= s[k].score <= hi
    ensures lo * TotalCredits(s) as real <= WeightedTotal(s) <= hi * TotalCredits(s) as real
  {
    if s != [] {
      var p, c := s[..|s| - 1], s[|s| - 1];
      WeightedTotalBounds(p, lo, hi);
      StepBounds(lo, hi, TotalCredits(p) as real, WeightedTotal(p), c.score, c.credits as real);
    }
  }

  /** A number whose multiple by a positive t lies between lo·t and hi·t lies between lo and hi. */
  lemma MeanBounds(g: real, t: real, lo: real, hi: real)
    requires t > 0.0
    requires lo * t <= g * t <= hi * t
    ensures lo <= g <= hi
  {
  }

  /**
    A credit-weighted mean lies within the range of the scores: with
    non-negative credits and a positive credit total, the GPA is between the
    lowest and the highest bound on any score.
   */
  lemma GpaWithinScoreBounds(s: seq<Course>, lo: real, hi: real)
    requires forall k :: 0 <= k < |s| ==> s[k].credits >= 0
    requires forall k :: 0 <= k < |s| ==> lo <= s[k].score <= hi
    requires TotalCredits(s) > 0
    ensures lo <= Gpa(s) <= hi
  {
    WeightedTotalBounds(s, lo, hi);
    var g, t, w := Gpa(s), TotalCredits(s) as real, WeightedTotal(s);
    assert lo * t <= w <= hi * t;
    assert g * t == w;
    MeanBounds(g, t, lo, hi);
  }

  /** The worked example: scores 8 and 6 over 3 and 1 credits average 7.5. */
  lemma GpaExample()
    ensures Gpa([Course("A", "A", 3, 1, 8.0), Course("B", "B", 1, 1, 6.0)]) == 7.5
  {
    var s := [Course("A", "A", 3, 1, 8.0), Course("B", "B", 1, 1, 6.0)];
    assert s[..1] == [s[0]] && s[..1][..0] == [];
    assert TotalCredits(s) == 4;
    assert WeightedTotal(s) == 30.0;
  }

  // ---------------------------------------------------------------------------
  // Properties of the semester filter

  /** Filtering a concatenation filters each part and keeps their order. */
  lemma {:induction false} BySemesterAppend(a: seq<Course>, b: seq<Course>, semester: int)
    ensures BySemester(a + b, semester) == BySemester(a, semester) + BySemester(b, semester)
  {
    if b == [] {
      assert a + b == a;
    } else {
      var b' := b[..|b| - 1];
      assert (a + b)[..|a + b| - 1] == a + b';
      assert (a + b)[|a + b| - 1] == b[|b| - 1];
      BySemesterAppend(a, b', semester);
    }
  }

  /**
    The filter keeps every record of the semester exactly as often as the
    list holds it, and no record of another semester.
   */
  lemma {:induction false} BySemesterContents(s: seq<Course>, semester: int)
    ensures forall c ::
      multiset(BySemester(s, semester))[c] == (if c.semester == semester then multiset(s)[c] else 0)
  {
    if s != [] {
      BySemesterContents(s[..|s| - 1], semester);
      assert s == s[..|s| - 1] + [s[|s| - 1]];
    }
  }

  /** When every record is of the semester, the semester GPA is the overall GPA. */
  lemma {:induction false} BySemesterOfOneSemester(s: seq<Course>, semester: int)
    requires forall k :: 0 <= k < |s| ==> s[k].semester == semester
    ensures BySemester(s, semester) == s
    ensures Gpa(BySemester(s, semester)) == Gpa(s)
  {
    if s != [] {
      BySemesterOfOneSemester(s[..|s| - 1], semester);
      assert s == s[..|s| - 1] + [s[|s| - 1]];
    }
  }

  /** A record of another semester does not move a semester's GPA. */
  lemma OtherSemesterIgnored(s: seq<Course>, c: Course, semester: int)
    requires c.semester != semester
    ensures Gpa(BySemester(s + [c], semester)) == Gpa(BySemester(s, semester))
  {
    var t := s + [c];
    assert t[..|t| - 1] == s && t[|t| - 1] == c;
    var f := BySemester(s, semester);
    assert f + [] == f;
    assert BySemester(t, semester) == f;
  }
}
