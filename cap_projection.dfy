/**
 * The calculations behind the transcript: the CAP (a credit-weighted average
 * over completed, CAP-affecting modules) and the greedy projection of target
 * grades onto the targetable modules when a CAP goal is set.
 *
 * Java's `double` arithmetic is modelled by exact `real` arithmetic.
 */
module CapProjection {
  import opened Wrappers
  import opened ModuleData
  import opened ModuleList

  // ------------------------------------------------------------ the views

  /** `moduleIsUsedForCapCalculation`: completed and counting towards the CAP. */
  predicate IsUsedForCapCalculation(m: Module)
  {
    m.HasCompleted() && m.IsAffectCap()
  }

  /** The filter of `getGradedAdjustedModulesList`: adjusted and counting towards the CAP. */
  predicate IsGradedAdjusted(m: Module)
  {
    m.IsAdjusted() && m.IsAffectCap()
  }

  predicate IsTargetable(m: Module)
  {
    m.IsTargetable()
  }

  predicate IsTargetted(m: Module)
  {
    m.IsTargetted()
  }

  function GradedModules(s: seq<Module>): seq<Module>
  {
    Filter(s, IsUsedForCapCalculation)
  }

  function GradedAdjustedModules(s: seq<Module>): seq<Module>
  {
    Filter(s, IsGradedAdjusted)
  }

  function TargetableModules(s: seq<Module>): seq<Module>
  {
    Filter(s, IsTargetable)
  }

  // ------------------------------------------------------------ the totals

  /** The accumulator loop of `calculateTotalModuleCredit`. */
  method CalculateTotalModuleCredit(s: seq<Module>) returns (total: nat)
    ensures total == CreditSum(s)
  {
    total := 0;
    var i := 0;
    while i < |s|
      invariant 0 <= i <= |s|
      invariant total == CreditSum(s[..i])
    {
      assert s[..i + 1] == s[..i] + [s[i]];
      SumsAppend(s[..i], [s[i]]);
      total := total + s[i].credit;
      i := i + 1;
    }
    assert s[..|s|] == s;
  }

  /** The accumulator loop of `calculateTotalModulePoint`. */
  method CalculateTotalModulePoint(s: seq<Module>) returns (total: real)
    ensures total == PointSum(s)
  {
    total := 0.0;
    var i := 0;
    while i < |s|
      invariant 0 <= i <= |s|
      invariant total == PointSum(s[..i])
    {
      assert s[..i + 1] == s[..i] + [s[i]];
      SumsAppend(s[..i], [s[i]]);
      total := total + s[i].grade.point * s[i].credit as real;
      i := i + 1;
    }
    assert s[..|s|] == s;
  }

  // ------------------------------------------------------------------ CAP

  /**
   * `calculateCap`: total point over total credit of the graded modules, and
   * exactly 0 when their total credit is 0.
   */
  function CalculateCap(s: seq<Module>): (cap: real)
    ensures CreditSum(GradedModules(s)) == 0 ==> cap == 0.0
    ensures CreditSum(GradedModules(s)) > 0 ==>
              cap * CreditSum(GradedModules(s)) as real == PointSum(GradedModules(s))
  {
    var graded := GradedModules(s);
    var credit := CreditSum(graded);
    if credit > 0 then PointSum(graded) / credit as real else 0.0
  }

  // ------------------------------------------------------- real arithmetic

  lemma MulLeft(a: real, b: real, c: real)
    requires a <= b && 0.0 <= c
    ensures a * c <= b * c
  {
  }

  lemma DivCancel(x: real, c: real)
    requires c > 0.0
    ensures (x / c) * c == x
  {
  }

  lemma MulPos(a: real, c: real)
    requires a > 0.0 && c > 0.0
    ensures a * c > 0.0
  {
  }

  /** A quotient is at most y exactly when the dividend is at most y times the divisor. */
  lemma DivAtMost(x: real, y: real, c: real)
    requires c > 0.0
    ensures x / c <= y <==> x <= y * c
  {
    var q := x / c;
    DivCancel(x, c);
    if q <= y {
      MulLeft(q, y, c);
    } else {
      MulPos(q - y, c);
      assert q * c == x;
      assert (q - y) * c == q * c - y * c;
    }
  }

  /** A quotient is at least y exactly when the dividend is at least y times the divisor. */
  lemma DivAtLeast(x: real, y: real, c: real)
    requires c > 0.0
    ensures y <= x / c <==> y * c <= x
  {
    var q := x / c;
    DivCancel(x, c);
    if y <= q {
      MulLeft(y, q, c);
    } else {
      MulPos(y - q, c);
      assert (y - q) * c == y * c - q * c;
    }
  }

  // ------------------------------------------------------------------ CAP bounds

  lemma Distribute(a: real, b: real, c: real)
    ensures a * (b + c) == a * b + a * c
  {
  }

  /** If every point is at least lo, the credit-weighted total is at least lo per credit. */
  lemma {:induction false} PointSumAtLeast(s: seq<Module>, lo: real)
    requires forall k :: 0 <= k < |s| ==> lo <= s[k].grade.point
    ensures lo * CreditSum(s) as real <= PointSum(s)
  {
    if s != [] {
      PointSumAtLeast(s[1..], lo);
      var c := s[0].credit as real;
      MulLeft(lo, s[0].grade.point, c);
      Distribute(lo, c, CreditSum(s[1..]) as real);
    }
  }

  /** If every point is at most hi, the credit-weighted total is at most hi per credit. */
  lemma {:induction false} PointSumAtMost(s: seq<Module>, hi: real)
    requires forall k :: 0 <= k < |s| ==> s[k].grade.point <= hi
    ensures PointSum(s) <= hi * CreditSum(s) as real
  {
    if s != [] {
      PointSumAtMost(s[1..], hi);
      var c := s[0].credit as real;
      MulLeft(s[0].grade.point, hi, c);
      Distribute(hi, c, CreditSum(s[1..]) as real);
    }
  }

  /** The CAP is an average: it lies between the lowest and highest graded point. */
  lemma CapBounds(s: seq<Module>, lo: real, hi: real)
    requires forall m :: m in s && IsUsedForCapCalculation(m) ==> lo <= m.grade.point <= hi
    requires CreditSum(GradedModules(s)) > 0
    ensures lo <= CalculateCap(s) <= hi
  {
    var graded := GradedModules(s);
    var c := CreditSum(graded) as real;
    var ps := PointSum(graded);
    forall k | 0 <= k < |graded|
      ensures lo <= graded[k].grade.point <= hi
    {
      FilterMembers(s, IsUsedForCapCalculation);
      assert graded[k] in graded;
    }
    PointSumAtLeast(graded, lo);
    PointSumAtMost(graded, hi);
    DivAtLeast(ps, lo, c);
    DivAtMost(ps, hi, c);
    assert CalculateCap(s) == ps / c;
  }

  /** A module that is not graded (incomplete, or not affecting the CAP) leaves the CAP as it is. */
  lemma CapIgnoresUngraded(s: seq<Module>, m: Module)
    requires !IsUsedForCapCalculation(m)
    ensures CalculateCap(s + [m]) == CalculateCap(s)
  {
    FilterAppend(s, [m], IsUsedForCapCalculation);
    assert Filter([m], IsUsedForCapCalculation) == [];
    assert GradedModules(s + [m]) == GradedModules(s);
  }

  // -------------------------------------------------------- half-point ceiling

  /** `Math.ceil` on exact reals. */
  function Ceil(x: real): (r: int)
    ensures x <= r as real < x + 1.0
  {
    -((-x).Floor)
  }

  /** A whole multiple of 0.5. */
  predicate IsHalfStep(p: real)
  {
    (p * 2.0).Floor as real == p * 2.0
  }

  /** `Math.ceil(x * 2) / 2.0`: x rounded up to the next multiple of 0.5. */
  function HalfUp(x: real): real
  {
    Ceil(x * 2.0) as real / 2.0
  }

  lemma HalfUpBounds(x: real)
    ensures x <= HalfUp(x) < x + 0.5
    ensures IsHalfStep(HalfUp(x))
  {
  }

  lemma HalfUpMonotone(x: real, y: real)
    requires x <= y
    ensures HalfUp(x) <= HalfUp(y)
  {
    assert Ceil(x * 2.0) <= Ceil(y * 2.0);
  }

  /** The rounding boundary: a required average rounds to at most 5 exactly when it is at most 5. */
  lemma HalfUpAtMostFive(x: real)
    ensures HalfUp(x) <= 5.0 <==> x <= 5.0
  {
    if x <= 5.0 {
      assert Ceil(x * 2.0) <= 10;
    }
  }

  /** Lines 349-351: a unit score of at most 0.5 is raised to 1.0. */
  function Clamp(u: real): real
  {
    if u <= 0.5 then 1.0 else u
  }

  /** Clamping a multiple of 0.5 gives a multiple of 0.5 of at least 1.0, and never lowers it. */
  lemma ClampFacts(v: real)
    requires IsHalfStep(v)
    ensures v <= Clamp(v) && 1.0 <= Clamp(v) && IsHalfStep(Clamp(v))
  {
    assert (1.0 * 2.0).Floor == 2;
    if v > 0.5 {
      assert (v * 2.0).Floor > 1;
    }
  }

  lemma ClampMonotone(x: real, y: real)
    requires x <= y && IsHalfStep(y)
    ensures Clamp(x) <= Clamp(y)
  {
    ClampFacts(y);
  }

  /** The unit score still to be achieved over the remaining credit. */
  function UnitScore(score: real, credit: nat): real
    requires credit > 0
  {
    HalfUp(score / credit as real)
  }

  // ------------------------------------------------------------ projection

  /** The last module of a non-empty list has positive credit. */
  predicate LastPositive(s: seq<Module>)
  {
    |s| > 0 ==> s[|s| - 1].credit > 0
  }

  lemma {:induction false} LastPositiveSum(s: seq<Module>)
    requires LastPositive(s) && |s| > 0
    ensures CreditSum(s) > 0
  {
    if |s| > 1 {
      LastPositiveSum(s[1..]);
    }
  }

  /** The grade given to the first of the modules s when score is still to be achieved. */
  function FirstUnit(s: seq<Module>, score: real): real
    requires LastPositive(s) && |s| > 0
  {
    LastPositiveSum(s);
    Clamp(UnitScore(score, CreditSum(s)))
  }

  /** The score still to be achieved after the first of the modules s got its grade. */
  function Remaining(s: seq<Module>, score: real): real
    requires LastPositive(s) && |s| > 0
  {
    score - s[0].credit as real * FirstUnit(s, score)
  }

  /**
   * The greedy loop of `calculateAndCreateNewTargetModuleGrade` as a function:
   * each module in turn gets the rounded-up average still required over the
   * remaining credit (clamped up to 1.0), and that share is taken off the
   * score still to achieve.
   */
  function Assign(s: seq<Module>, score: real): seq<Module>
    requires LastPositive(s)
    decreases |s|
  {
    if s == [] then []
    else [s[0].UpdateTargetGrade(FirstUnit(s, score))] + Assign(s[1..], Remaining(s, score))
  }

  /** The outcome of the projection over sorted targetable modules whose total credit is positive. */
  function CreateTargets(sorted: seq<Module>, score: real): Option<seq<Module>>
    requires LastPositive(sorted) && |sorted| > 0
  {
    LastPositiveSum(sorted);
    if UnitScore(score, CreditSum(sorted)) > 5.0 then None else Some(Assign(sorted, score))
  }

  /**
   * `calculateAndCreateNewTargetModuleGrade`. The caller guarantees a positive
   * remaining credit (the source throws IllegalArgumentException otherwise).
   * The recomputation of the unit score after the last module, a division by
   * zero in the source, is not performed.
   */
  method CalculateAndCreateNewTargetModuleGrade(
    sorted: seq<Module>, givenTotalUngradedModuleCredit: real, givenTotalScoreToAchieve: real)
    returns (r: Option<seq<Module>>)
    requires LastPositive(sorted) && |sorted| > 0
    requires givenTotalUngradedModuleCredit == CreditSum(sorted) as real
    ensures r == CreateTargets(sorted, givenTotalScoreToAchieve)
  {
    LastPositiveSum(sorted);
    var totalUngradedModuleCredit := givenTotalUngradedModuleCredit;
    var totalScoreToAchieve := givenTotalScoreToAchieve;
    var unitScoreToAchieve := HalfUp(totalScoreToAchieve / totalUngradedModuleCredit);
    if unitScoreToAchieve > 5.0 {
      return None;
    }
    var targetModules: seq<Module> := [];
    var i := 0;
    while i < |sorted|
      invariant 0 <= i <= |sorted|
      invariant LastPositive(sorted[i..])
      invariant totalUngradedModuleCredit == CreditSum(sorted[i..]) as real
      invariant i < |sorted| ==> CreditSum(sorted[i..]) > 0
      invariant i < |sorted| ==>
                  unitScoreToAchieve == UnitScore(totalScoreToAchieve, CreditSum(sorted[i..]))
      invariant targetModules + Assign(sorted[i..], totalScoreToAchieve)
             == Assign(sorted, givenTotalScoreToAchieve)
    {
      if unitScoreToAchieve <= 0.5 {
        unitScoreToAchieve := 1.0;
      }
      var newTargetModule := sorted[i].UpdateTargetGrade(unitScoreToAchieve);
      AssignStep(sorted, i, totalScoreToAchieve, unitScoreToAchieve, newTargetModule, targetModules);
      targetModules := targetModules + [newTargetModule];
      totalScoreToAchieve := totalScoreToAchieve - newTargetModule.credit as real * unitScoreToAchieve;
      totalUngradedModuleCredit := totalUngradedModuleCredit - newTargetModule.credit as real;
      i := i + 1;
      if i < |sorted| {
        LastPositiveSum(sorted[i..]);
        unitScoreToAchieve := HalfUp(totalScoreToAchieve / totalUngradedModuleCredit);
      }
    }
    assert sorted[|sorted|..] == [];
    assert targetModules == targetModules + [];
    return Some(targetModules);
  }

  /**
   * One turn of the greedy loop over the suffix starting at i: the module m
   * with the clamped unit score is emitted, and the loop goes on with the
   * rest of the modules and the reduced score.
   */
  lemma AssignStep(sorted: seq<Module>, i: nat, score: real, unit: real, m: Module, prefix: seq<Module>)
    requires i < |sorted| && LastPositive(sorted[i..]) && CreditSum(sorted[i..]) > 0
    requires unit == Clamp(UnitScore(score, CreditSum(sorted[i..])))
    requires m == sorted[i].UpdateTargetGrade(unit)
    ensures LastPositive(sorted[i + 1..])
    ensures CreditSum(sorted[i..]) == sorted[i].credit + CreditSum(sorted[i + 1..])
    ensures prefix + Assign(sorted[i..], score)
         == (prefix + [m]) + Assign(sorted[i + 1..], score - m.credit as real * unit)
  {
    var t := sorted[i..];
    assert t[0] == sorted[i] && t[1..] == sorted[i + 1..];
    assert FirstUnit(t, score) == unit;
    assert Remaining(t, score) == score - m.credit as real * unit;
    assert Assign(t, score) == [m] + Assign(t[1..], Remaining(t, score));
  }

  // ------------------------------------------------- getNewTargetModuleGrade

  /** The targetable modules in ascending-credit order. */
  function SortedTargetable(s: seq<Module>): seq<Module>
  {
    SortByCredit(TargetableModules(s))
  }

  /** `totalUngradedModuleCredit`: the credit still to be projected onto. */
  function TargetableCredit(s: seq<Module>): nat
  {
    CreditSum(SortedTargetable(s))
  }

  /** `totalMc`: credit of the graded, adjusted and targetable modules. */
  function TotalMc(s: seq<Module>): nat
  {
    CreditSum(GradedModules(s)) + CreditSum(GradedAdjustedModules(s)) + TargetableCredit(s)
  }

  /** `currentTotalPoint`: points already earned by the graded and adjusted modules. */
  function CurrentTotalPoint(s: seq<Module>): real
  {
    PointSum(GradedModules(s)) + PointSum(GradedAdjustedModules(s))
  }

  /** `totalScoreToAchieve`: the points the targetable modules must still bring for the goal. */
  function ScoreToAchieve(s: seq<Module>, goal: real): real
  {
    ScoreFor(goal, TotalMc(s) as real, CurrentTotalPoint(s))
  }

  /** `capGoal.getValue() * totalMc - currentTotalPoint`. */
  function ScoreFor(goal: real, totalMc: real, currentTotalPoint: real): real
  {
    goal * totalMc - currentTotalPoint
  }

  lemma SortedTargetableFacts(s: seq<Module>)
    ensures multiset(SortedTargetable(s)) == multiset(TargetableModules(s))
    ensures TargetableCredit(s) == CreditSum(TargetableModules(s))
    ensures TargetableCredit(s) > 0 ==>
              |SortedTargetable(s)| > 0 && LastPositive(SortedTargetable(s))
  {
    SortByCreditFacts(TargetableModules(s));
    if TargetableCredit(s) > 0 {
      SortedLastPositive(SortedTargetable(s));
    }
  }

  /**
   * `getNewTargetModuleGrade`: None stands for the `null` that marks the goal
   * impossible; Some(ts) holds the new targeted modules.
   */
  function NewTargetModules(s: seq<Module>, goal: real): Option<seq<Module>>
  {
    if TargetableCredit(s) == 0 then
      if TotalMc(s) == 0 then None
      else if goal > CurrentTotalPoint(s) / TotalMc(s) as real then None
      else Some([])
    else
      SortedTargetableFacts(s);
      CreateTargets(SortedTargetable(s), ScoreToAchieve(s, goal))
  }

  // --------------------------------------------------- projection lemmas

  /** Each projected module is the corresponding input module with a target grade. */
  lemma {:induction false} AssignShape(s: seq<Module>, score: real)
    requires LastPositive(s)
    ensures |Assign(s, score)| == |s|
    ensures forall k :: 0 <= k < |s| ==>
              Assign(s, score)[k] == s[k].UpdateTargetGrade(Assign(s, score)[k].grade.point)
    decreases |s|
  {
    if s != [] {
      var rest := Assign(s[1..], Remaining(s, score));
      AssignShape(s[1..], Remaining(s, score));
      assert Assign(s, score)[1..] == rest;
    }
  }

  /** Projection keeps identities and credits position by position. */
  lemma AssignIdsCredits(s: seq<Module>, score: real)
    requires LastPositive(s)
    ensures Ids(Assign(s, score)) == Ids(s)
    ensures CreditSum(Assign(s, score)) == CreditSum(s)
  {
    var a := Assign(s, score);
    AssignShape(s, score);
    forall k | 0 <= k < |s|
      ensures a[k].Id() == s[k].Id() && a[k].credit == s[k].credit
    {
      assert a[k] == s[k].UpdateTargetGrade(a[k].grade.point);
    }
    assert Ids(a) == Ids(s);
    SameCredits(a, s);
  }

  lemma {:induction false} SameCredits(a: seq<Module>, b: seq<Module>)
    requires |a| == |b| && forall k :: 0 <= k < |a| ==> a[k].credit == b[k].credit
    ensures CreditSum(a) == CreditSum(b)
  {
    if a != [] {
      SameCredits(a[1..], b[1..]);
    }
  }

  /** What one greedy step does to the required average: it never goes up. */
  lemma RatioNonIncreasing(score: real, total: real, c: real, u: real)
    requires 0.0 <= c < total
    requires u >= score / total
    ensures (score - c * u) / (total - c) <= score / total
  {
    var rho := score / total;
    var rest := total - c;
    DivCancel(score, total);
    MulLeft(rho, u, c);
    assert rho * c == c * rho && u * c == c * u;
    assert score - c * u <= rho * total - rho * c;
    assert rho * total - rho * c == rho * rest;
    DivAtMost(score - c * u, rho, rest);
  }

  /** The first unit covers the average still required over the remaining credit. */
  lemma FirstUnitCovers(s: seq<Module>, score: real)
    requires LastPositive(s) && |s| > 0
    ensures CreditSum(s) > 0
    ensures score / CreditSum(s) as real <= FirstUnit(s, score)
    ensures 1.0 <= FirstUnit(s, score) && IsHalfStep(FirstUnit(s, score))
  {
    LastPositiveSum(s);
    HalfUpBounds(score / CreditSum(s) as real);
    ClampFacts(UnitScore(score, CreditSum(s)));
  }

  /** The clamped, rounded-up unit score over the remaining credit never exceeds the one before it. */
  lemma UnitNonIncreasing(score: real, total: real, c: real, rest: real)
    requires 0.0 <= c && 0.0 < rest && total == c + rest
    ensures Clamp(HalfUp((score - c * Clamp(HalfUp(score / total))) / (total - c))) <= Clamp(HalfUp(score / total))
  {
    var h := HalfUp(score / total);
    HalfUpCovers(score / total);
    RatioNonIncreasing(score, total, c, Clamp(h));
    RoundedNonIncreasing((score - c * Clamp(h)) / (total - c), score / total);
  }

  /** The clamped rounding of x is a multiple of 0.5 and at least x. */
  lemma HalfUpCovers(x: real)
    ensures IsHalfStep(HalfUp(x)) && x <= Clamp(HalfUp(x))
  {
    HalfUpBounds(x);
    ClampFacts(HalfUp(x));
  }

  /** Clamped rounding is monotone. */
  lemma RoundedNonIncreasing(x: real, y: real)
    requires x <= y
    ensures Clamp(HalfUp(x)) <= Clamp(HalfUp(y))
  {
    HalfUpMonotone(x, y);
    HalfUpBounds(y);
    ClampMonotone(HalfUp(x), HalfUp(y));
  }

  /** Later modules never need more than the first one. */
  lemma FirstUnitNonIncreasing(s: seq<Module>, score: real)
    requires LastPositive(s) && |s| > 1
    ensures FirstUnit(s[1..], Remaining(s, score)) <= FirstUnit(s, score)
  {
    LastPositiveSum(s[1..]);
    var total := CreditSum(s) as real;
    var rest := CreditSum(s[1..]) as real;
    var c := s[0].credit as real;
    assert total == c + rest;
    assert FirstUnit(s, score) == Clamp(HalfUp(score / total));
    assert Remaining(s, score) == score - c * Clamp(HalfUp(score / total));
    assert FirstUnit(s[1..], Remaining(s, score)) == Clamp(HalfUp(Remaining(s, score) / (total - c)));
    UnitNonIncreasing(score, total, c, rest);
  }

  /**
   * Every assigned grade is a multiple of 0.5, at least 1.0, and no larger
   * than the first one.
   */
  lemma {:induction false} AssignGradeRange(s: seq<Module>, score: real)
    requires LastPositive(s) && |s| > 0
    ensures |Assign(s, score)| == |s|
    ensures forall k :: 0 <= k < |s| ==>
              1.0 <= Assign(s, score)[k].grade.point <= FirstUnit(s, score)
              && IsHalfStep(Assign(s, score)[k].grade.point)
    decreases |s|
  {
    AssignShape(s, score);
    FirstUnitCovers(s, score);
    var rest := Assign(s[1..], Remaining(s, score));
    assert Assign(s, score)[0].grade.point == FirstUnit(s, score);
    if |s| > 1 {
      AssignGradeRange(s[1..], Remaining(s, score));
      FirstUnitNonIncreasing(s, score);
      forall k | 1 <= k < |s|
        ensures 1.0 <= Assign(s, score)[k].grade.point <= FirstUnit(s, score)
                && IsHalfStep(Assign(s, score)[k].grade.point)
      {
        assert Assign(s, score)[k] == rest[k - 1];
      }
    }
  }

  /** A unit of at least score / c over c credits covers the score. */
  lemma LastUnitCovers(score: real, c: real, u: real)
    requires c > 0.0 && score / c <= u
    ensures u * c + 0.0 >= score
  {
    MulLeft(score / c, u, c);
    DivCancel(score, c);
  }

  /** Σ credit × assigned grade reaches the score still to achieve. */
  lemma {:induction false} AssignMeetsGoal(s: seq<Module>, score: real)
    requires LastPositive(s) && |s| > 0
    ensures PointSum(Assign(s, score)) >= score
    decreases |s|
  {
    if |s| > 1 {
      AssignMeetsGoal(s[1..], Remaining(s, score));
      AssignMeetsGoalStep(s, score);
    } else {
      AssignMeetsGoalLast(s, score);
    }
  }

  /** The inductive step: the first module's share plus what covers the remainder covers the score. */
  lemma AssignMeetsGoalStep(s: seq<Module>, score: real)
    requires LastPositive(s) && |s| > 1
    requires PointSum(Assign(s[1..], Remaining(s, score))) >= Remaining(s, score)
    ensures PointSum(Assign(s, score)) >= score
  {
    AssignPointSum(s, score);
    CoverStep(score, s[0].credit as real, FirstUnit(s, score), PointSum(Assign(s[1..], Remaining(s, score))));
  }

  /** A single module: its unit covers the whole score over its own credit. */
  lemma AssignMeetsGoalLast(s: seq<Module>, score: real)
    requires LastPositive(s) && |s| == 1
    ensures PointSum(Assign(s, score)) >= score
  {
    FirstUnitCovers(s, score);
    AssignPointSum(s, score);
    assert CreditSum(s) == s[0].credit;
    LastUnitCovers(score, s[0].credit as real, FirstUnit(s, score));
  }

  /** The first projected module brings its credit times the first unit. */
  lemma {:induction false} AssignPointSum(s: seq<Module>, score: real)
    requires LastPositive(s) && |s| > 0
    ensures PointSum(Assign(s, score))
         == FirstUnit(s, score) * s[0].credit as real + PointSum(Assign(s[1..], Remaining(s, score)))
    ensures |s| == 1 ==> PointSum(Assign(s[1..], Remaining(s, score))) == 0.0
  {
    AssignHead(s, score);
    PointSumHead(Assign(s, score));
  }

  /** The first projected module and the rest of the projection. */
  lemma AssignHead(s: seq<Module>, score: real)
    requires LastPositive(s) && |s| > 0
    ensures |Assign(s, score)| == |s|
    ensures Assign(s, score)[0].grade.point == FirstUnit(s, score)
    ensures Assign(s, score)[0].credit == s[0].credit
    ensures Assign(s, score)[1..] == Assign(s[1..], Remaining(s, score))
  {
    AssignShape(s, score);
  }

  lemma PointSumHead(t: seq<Module>)
    requires |t| > 0
    ensures PointSum(t) == t[0].grade.point * t[0].credit as real + PointSum(t[1..])
  {
  }

  /** What the first module brings plus what the rest bring covers the score. */
  lemma CoverStep(score: real, c: real, u: real, p: real)
    requires p >= score - c * u
    ensures u * c + p >= score
  {
  }

  /** The rounded-up unit score is at most 5 exactly when the score is at most 5 per credit. */
  lemma UnitAtMostFive(score: real, c: real)
    requires c > 0.0
    ensures HalfUp(score / c) <= 5.0 <==> score <= 5.0 * c
  {
    HalfUpAtMostFive(score / c);
    DivAtMost(score, 5.0, c);
  }

  lemma CreateTargetsSomeIff(sorted: seq<Module>, score: real)
    requires LastPositive(sorted) && |sorted| > 0
    ensures CreditSum(sorted) > 0
    ensures CreateTargets(sorted, score).Some? <==> HalfUp(score / CreditSum(sorted) as real) <= 5.0
  {
    LastPositiveSum(sorted);
  }

  /** Over sorted targetable modules the goal can be reached exactly when score <= 5 × credit. */
  lemma CreateTargetsFeasible(sorted: seq<Module>, score: real)
    requires LastPositive(sorted) && |sorted| > 0
    ensures CreditSum(sorted) > 0
    ensures CreateTargets(sorted, score).Some? <==> score <= 5.0 * CreditSum(sorted) as real
  {
    CreateTargetsSomeIff(sorted, score);
    UnitAtMostFive(score, CreditSum(sorted) as real);
  }

  lemma NoTargetableFeasible(s: seq<Module>, goal: real)
    requires TargetableCredit(s) == 0
    ensures NewTargetModules(s, goal).Some? <==>
              TotalMc(s) > 0 && goal * TotalMc(s) as real <= CurrentTotalPoint(s)
  {
    var mc := TotalMc(s);
    var pts := CurrentTotalPoint(s);
    if mc > 0 {
      assert NewTargetModules(s, goal).Some? <==> goal <= pts / mc as real;
      DivAtLeast(pts, goal, mc as real);
    } else {
      assert NewTargetModules(s, goal) == None;
    }
  }

  /** With targetable credit the projection is the greedy assignment over the sorted targetable modules. */
  lemma NewTargetModulesUnfold(s: seq<Module>, goal: real)
    requires TargetableCredit(s) > 0
    ensures |SortedTargetable(s)| > 0 && LastPositive(SortedTargetable(s))
    ensures NewTargetModules(s, goal)
         == CreateTargets(SortedTargetable(s), ScoreToAchieve(s, goal))
  {
    SortedTargetableFacts(s);
  }

  lemma TargetableFeasible(s: seq<Module>, goal: real)
    requires TargetableCredit(s) > 0
    ensures NewTargetModules(s, goal).Some? <==>
              ScoreToAchieve(s, goal) <= 5.0 * TargetableCredit(s) as real
  {
    NewTargetModulesUnfold(s, goal);
    CreateTargetsFeasible(SortedTargetable(s), ScoreToAchieve(s, goal));
  }

  /** A feasible projection with targetable credit is the greedy assignment. */
  lemma NewTargetsAssign(s: seq<Module>, goal: real, ts: seq<Module>)
    requires TargetableCredit(s) > 0
    requires NewTargetModules(s, goal) == Some(ts)
    ensures |SortedTargetable(s)| > 0 && LastPositive(SortedTargetable(s))
    ensures CreateTargets(SortedTargetable(s), ScoreToAchieve(s, goal)).Some?
    ensures ts == Assign(SortedTargetable(s), ScoreToAchieve(s, goal))
  {
    NewTargetModulesUnfold(s, goal);
  }

  /**
   * When the projection is feasible. With no targetable credit: some credit is
   * known and the goal does not exceed the current average. Otherwise: the
   * score still to achieve is at most 5 per remaining credit.
   */
  lemma ProjectionFeasible(s: seq<Module>, goal: real)
    ensures NewTargetModules(s, goal).Some? <==>
      if TargetableCredit(s) == 0
      then TotalMc(s) > 0 && goal * TotalMc(s) as real <= CurrentTotalPoint(s)
      else ScoreToAchieve(s, goal) <= 5.0 * TargetableCredit(s) as real
  {
    if TargetableCredit(s) == 0 {
      NoTargetableFeasible(s, goal);
    } else {
      TargetableFeasible(s, goal);
    }
  }

  lemma ScoreMonotone(s: seq<Module>, g1: real, g2: real)
    requires g2 <= g1
    ensures g2 * TotalMc(s) as real <= g1 * TotalMc(s) as real
    ensures ScoreToAchieve(s, g2) <= ScoreToAchieve(s, g1)
  {
    var t := TotalMc(s) as real;
    MulLeft(g2, g1, t);
    assert ScoreToAchieve(s, g2) == g2 * t - CurrentTotalPoint(s);
    assert ScoreToAchieve(s, g1) == g1 * t - CurrentTotalPoint(s);
  }

  /** A smaller goal over the same modules is feasible whenever a larger one is. */
  lemma FeasibilityMonotone(s: seq<Module>, g1: real, g2: real)
    requires g2 <= g1
    requires NewTargetModules(s, g1).Some?
    ensures NewTargetModules(s, g2).Some?
  {
    ScoreMonotone(s, g1, g2);
    if TargetableCredit(s) > 0 {
      TargetableFeasible(s, g1);
      TargetableFeasible(s, g2);
    } else {
      NoTargetableFeasible(s, g1);
      NoTargetableFeasible(s, g2);
    }
  }

  /**
   * A feasible projection: one module per targetable module, with the same
   * identities (in ascending-credit order) and credits, grades that are
   * multiples of 0.5 between 1.0 and 5.0, and a total that meets the goal
   * when averaged with the graded and adjusted modules.
   */
  lemma ProjectionCorrect(s: seq<Module>, goal: real, ts: seq<Module>)
    requires NewTargetModules(s, goal) == Some(ts)
    ensures TargetableCredit(s) == 0 ==> ts == []
    ensures TargetableCredit(s) > 0 ==> Ids(ts) == Ids(SortedTargetable(s))
    ensures CreditSum(ts) == TargetableCredit(s)
    ensures TargetableCredit(s) > 0 ==> |ts| == |SortedTargetable(s)| && forall k :: 0 <= k < |ts| ==>
              ts[k] == SortedTargetable(s)[k].UpdateTargetGrade(ts[k].grade.point)
              && 1.0 <= ts[k].grade.point <= 5.0 && IsHalfStep(ts[k].grade.point)
    ensures CurrentTotalPoint(s) + PointSum(ts) >= goal * TotalMc(s) as real
  {
    SortedTargetableFacts(s);
    if TargetableCredit(s) == 0 {
      NoTargetableFeasible(s, goal);
      assert ts == [];
    } else {
      NewTargetsAssign(s, goal, ts);
      AssignProperties(SortedTargetable(s), ScoreToAchieve(s, goal));
    }
  }

  /**
   * The shape of a feasible projection alone: the sorted targetable modules,
   * position by position, with new grades.
   */
  lemma ProjectionShape(s: seq<Module>, goal: real, ts: seq<Module>)
    requires NewTargetModules(s, goal) == Some(ts)
    ensures TargetableCredit(s) == 0 ==> ts == []
    ensures TargetableCredit(s) > 0 ==>
              Ids(ts) == Ids(SortedTargetable(s)) && |ts| == |SortedTargetable(s)|
              && forall k :: 0 <= k < |ts| ==> ts[k] == SortedTargetable(s)[k].UpdateTargetGrade(ts[k].grade.point)
  {
    if TargetableCredit(s) > 0 {
      NewTargetsAssign(s, goal, ts);
      AssignShape(SortedTargetable(s), ScoreToAchieve(s, goal));
      AssignIdsCredits(SortedTargetable(s), ScoreToAchieve(s, goal));
    }
  }

  /** The properties of a feasible projection over sorted targetable modules, gathered. */
  lemma AssignProperties(sorted: seq<Module>, score: real)
    requires LastPositive(sorted) && |sorted| > 0
    requires CreateTargets(sorted, score).Some?
    ensures Ids(Assign(sorted, score)) == Ids(sorted)
    ensures CreditSum(Assign(sorted, score)) == CreditSum(sorted)
    ensures |Assign(sorted, score)| == |sorted|
    ensures forall k :: 0 <= k < |sorted| ==>
              Assign(sorted, score)[k] == sorted[k].UpdateTargetGrade(Assign(sorted, score)[k].grade.point)
              && 1.0 <= Assign(sorted, score)[k].grade.point <= 5.0
              && IsHalfStep(Assign(sorted, score)[k].grade.point)
    ensures PointSum(Assign(sorted, score)) >= score
  {
    LastPositiveSum(sorted);
    AssignShape(sorted, score);
    AssignIdsCredits(sorted, score);
    AssignMeetsGoal(sorted, score);
    AssignGradeRange(sorted, score);
    assert FirstUnit(sorted, score) <= 5.0;
  }

  // ------------------------------------------------------ reprojection

  /** The projection keeps the credits position by position, so it keeps the ascending-credit order. */
  lemma AssignKeepsOrder(s: seq<Module>, score: real)
    requires LastPositive(s)
    ensures |Assign(s, score)| == |s|
    ensures forall k :: 0 <= k < |s| ==> Assign(s, score)[k].credit == s[k].credit
    ensures LastPositive(Assign(s, score))
    ensures SortedByCredit(s) ==> SortedByCredit(Assign(s, score))
  {
    var a := Assign(s, score);
    AssignShape(s, score);
    forall k | 0 <= k < |s|
      ensures a[k].credit == s[k].credit
    {
      assert a[k] == s[k].UpdateTargetGrade(a[k].grade.point);
    }
  }

  /** Lists of equal total credit and equal first credit give the same first unit and the same remainder. */
  lemma SameUnits(a: seq<Module>, s: seq<Module>, score: real)
    requires LastPositive(a) && LastPositive(s) && |a| > 0 && |s| > 0
    requires CreditSum(a) == CreditSum(s) && a[0].credit == s[0].credit
    ensures FirstUnit(a, score) == FirstUnit(s, score)
    ensures Remaining(a, score) == Remaining(s, score)
  {
  }

  /** Projecting the projected modules again with the same score changes nothing. */
  lemma {:induction false} AssignIdempotent(s: seq<Module>, score: real)
    requires LastPositive(s)
    ensures LastPositive(Assign(s, score))
    ensures Assign(Assign(s, score), score) == Assign(s, score)
    decreases |s|
  {
    AssignKeepsOrder(s, score);
    if s != [] {
      var a := Assign(s, score);
      var u := FirstUnit(s, score);
      var rest := Remaining(s, score);
      AssignHead(s, score);
      AssignIdsCredits(s, score);
      SameUnits(a, s, score);
      AssignIdempotent(s[1..], rest);
      assert a[0] == s[0].UpdateTargetGrade(u);
      assert a[0].UpdateTargetGrade(u) == a[0];
      assert Assign(a, score) == [a[0].UpdateTargetGrade(u)] + Assign(a[1..], rest);
      assert [a[0]] + a[1..] == a;
    }
  }

  /** A projection that succeeded succeeds again, with the same modules, over its own result. */
  lemma CreateTargetsAgain(sorted: seq<Module>, score: real)
    requires LastPositive(sorted) && |sorted| > 0
    requires CreateTargets(sorted, score).Some?
    ensures LastPositive(Assign(sorted, score)) && |Assign(sorted, score)| > 0
    ensures CreateTargets(Assign(sorted, score), score) == CreateTargets(sorted, score)
  {
    AssignKeepsOrder(sorted, score);
    AssignIdsCredits(sorted, score);
    AssignIdempotent(sorted, score);
  }
}
