/**
 * The grade classifier of the data-access layer: an optional score is mapped
 * to one of eight grade labels by descending thresholds, each inclusive at its
 * lower bound. Scores are exact reals; there is no clamping and no error path.
 */
module Grading {

  import opened Wrappers

  /** The label for a missing score. */
  const Absent: string := "-"

  /** Grade labels from the lowest band to the highest. */
  const Labels: seq<string> := ["0.0", "1.0", "1.5", "2.0", "2.5", "3.0", "3.5", "4.0"]

  /** Lower bounds of the bands above "0.0", ascending: Labels[k + 1] starts at Thresholds[k]. */
  const Thresholds: seq<real> := [50.0, 55.0, 60.0, 65.0, 70.0, 75.0, 80.0]

  /** The classifier as the source writes it: the first threshold, from the top, that the score reaches. */
  function CalculateGrade(score: Option<real>): (g: string)
    ensures g == Absent <==> score.None?
    ensures score.Some? ==> g in Labels
  {
    match score
    case None => Absent
    case Some(s) =>
      if s >= 80.0 then "4.0"
      else if s >= 75.0 then "3.5"
      else if s >= 70.0 then "3.0"
      else if s >= 65.0 then "2.5"
      else if s >= 60.0 then "2.0"
      else if s >= 55.0 then "1.5"
      else if s >= 50.0 then "1.0"
      else "0.0"
  }

  /** How many of the thresholds `ts` the score reaches. */
  function ThresholdsMet(s: real, ts: seq<real>): (n: nat)
    ensures n <= |ts|
  {
    if ts == [] then 0 else (if ts[0] <= s then 1 else 0) + ThresholdsMet(s, ts[1..])
  }

  /** Position of a label in Labels; -1 for the absent sentinel or any other text. */
  function Rank(g: string): int
  {
    if g == "0.0" then 0
    else if g == "1.0" then 1
    else if g == "1.5" then 2
    else if g == "2.0" then 3
    else if g == "2.5" then 4
    else if g == "3.0" then 5
    else if g == "3.5" then 6
    else if g == "4.0" then 7
    else -1
  }

  lemma RankOfLabel(k: nat)
    requires k < |Labels|
    ensures Rank(Labels[k]) == k
  {
  }

  /**
   * An independent reading of the classifier: the label is the one whose
   * position is the number of thresholds the score reaches.
   */
  lemma {:induction false} GradeIsThresholdCount(s: real)
    ensures CalculateGrade(Some(s)) == Labels[ThresholdsMet(s, Thresholds)]
  {
    var t7: seq<real> := [];
    var t6 := [80.0] + t7;
    var t5 := [75.0] + t6;
    var t4 := [70.0] + t5;
    var t3 := [65.0] + t4;
    var t2 := [60.0] + t3;
    var t1 := [55.0] + t2;
    assert Thresholds == [50.0] + t1;
    assert ThresholdsMet(s, t6) == (if s >= 80.0 then 1 else 0) by { assert t6[1..] == t7; }
    assert ThresholdsMet(s, t5) == (if s >= 75.0 then 1 else 0) + ThresholdsMet(s, t6) by { assert t5[1..] == t6; }
    assert ThresholdsMet(s, t4) == (if s >= 70.0 then 1 else 0) + ThresholdsMet(s, t5) by { assert t4[1..] == t5; }
    assert ThresholdsMet(s, t3) == (if s >= 65.0 then 1 else 0) + ThresholdsMet(s, t4) by { assert t3[1..] == t4; }
    assert ThresholdsMet(s, t2) == (if s >= 60.0 then 1 else 0) + ThresholdsMet(s, t3) by { assert t2[1..] == t3; }
    assert ThresholdsMet(s, t1) == (if s >= 55.0 then 1 else 0) + ThresholdsMet(s, t2) by { assert t1[1..] == t2; }
    assert ThresholdsMet(s, Thresholds) == (if s >= 50.0 then 1 else 0) + ThresholdsMet(s, t1) by {
      assert Thresholds[1..] == t1;
    }
  }

  lemma {:induction false} ThresholdsMetMonotone(s1: real, s2: real, ts: seq<real>)
    requires s1 <= s2
    ensures ThresholdsMet(s1, ts) <= ThresholdsMet(s2, ts)
  {
    if ts != [] {
      ThresholdsMetMonotone(s1, s2, ts[1..]);
    }
  }

  /** A higher score never gets a lower grade. */
  lemma GradeMonotone(s1: real, s2: real)
    requires s1 <= s2
    ensures Rank(CalculateGrade(Some(s1))) <= Rank(CalculateGrade(Some(s2)))
  {
    GradeIsThresholdCount(s1);
    GradeIsThresholdCount(s2);
    ThresholdsMetMonotone(s1, s2, Thresholds);
    RankOfLabel(ThresholdsMet(s1, Thresholds));
    RankOfLabel(ThresholdsMet(s2, Thresholds));
  }

  /** Band k (0 for "0.0" up to 7 for "4.0") holds exactly the scores between its bounds. */
  lemma GradeBand(s: real, k: nat)
    requires k < |Labels|
    ensures CalculateGrade(Some(s)) == Labels[k]
        <==> (k == 0 || Thresholds[k - 1] <= s) && (k == |Thresholds| || s < Thresholds[k])
  {
  }

  /** The boundaries pinned by the test suite, and scores outside 0..100. */
  lemma GradeExamples()
    ensures CalculateGrade(None) == "-"
    ensures CalculateGrade(Some(80.0)) == "4.0" && CalculateGrade(Some(79.99)) == "3.5"
    ensures CalculateGrade(Some(75.0)) == "3.5" && CalculateGrade(Some(74.99)) == "3.0"
    ensures CalculateGrade(Some(70.0)) == "3.0" && CalculateGrade(Some(69.99)) == "2.5"
    ensures CalculateGrade(Some(65.0)) == "2.5" && CalculateGrade(Some(64.99)) == "2.0"
    ensures CalculateGrade(Some(60.0)) == "2.0" && CalculateGrade(Some(59.99)) == "1.5"
    ensures CalculateGrade(Some(55.0)) == "1.5" && CalculateGrade(Some(54.99)) == "1.0"
    ensures CalculateGrade(Some(50.0)) == "1.0" && CalculateGrade(Some(49.99)) == "0.0"
    ensures CalculateGrade(Some(150.0)) == "4.0" && CalculateGrade(Some(-10.0)) == "0.0"
  {
  }
}
