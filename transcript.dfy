/**
 * The transcript: a duplicate-free list of modules, the CAP goal and the
 * cached CAP. After every change to the modules the target grades are
 * projected again (when a goal is set) and then the CAP is recomputed.
 */
module TranscriptModel {
  import opened Wrappers
  import opened ModuleData
  import opened ModuleList
  import opened CapProjection

  /** The exceptions thrown by the module list and the transcript. */
  datatype StoreError = DuplicateModule | ModuleNotFound | ModuleCompleted

  // ------------------------------------------------------ target replacement

  function NotIn(xs: seq<Module>): Module -> bool
  {
    (m: Module) => m !in xs
  }

  /** `removeAll(xs)`: every entry equal to an element of xs is dropped. */
  function RemoveAll(s: seq<Module>, xs: seq<Module>): seq<Module>
  {
    Filter(s, NotIn(xs))
  }

  /** `replaceTargetModules`: without targetable modules nothing happens; otherwise they make way for ts. */
  function ReplaceTargets(s: seq<Module>, targetable: seq<Module>, ts: seq<Module>): seq<Module>
  {
    if targetable == [] then s else RemoveAll(s, targetable) + ts
  }

  /**
   * `updateTargetModuleGrades` on values: the module list and the goal after
   * the projection is rerun over s.
   */
  function TargetUpdate(s: seq<Module>, goal: CapGoal): (seq<Module>, CapGoal)
  {
    if !goal.isSet then (s, goal)
    else match NewTargetModules(s, goal.value)
      case None => (s, goal.MakeIsImpossible())
      case Some(ts) => (ReplaceTargets(s, TargetableModules(s), ts), NewCapGoal(goal.value))
  }

  // ------------------------------------------------------------- lemmas

  /**
   * Removing the elements of xs, when xs holds exactly the elements of s that
   * satisfy p, keeps the elements that do not.
   */
  lemma {:induction false} RemoveAllFilter(s: seq<Module>, xs: seq<Module>, p: Module -> bool)
    requires forall m :: m in xs ==> p(m)
    requires forall m :: m in s && p(m) ==> m in xs
    ensures RemoveAll(s, xs) == Filter(s, Not(p))
  {
    if s != [] {
      assert forall m :: m in s[1..] ==> m in s;
      RemoveAllFilter(s[1..], xs, p);
      assert NotIn(xs)(s[0]) == Not(p)(s[0]);
    }
  }

  /** Removing the targetable modules keeps exactly the non-targetable ones. */
  lemma RemoveTargetable(s: seq<Module>)
    ensures RemoveAll(s, TargetableModules(s)) == Filter(s, Not(IsTargetable))
  {
    FilterMembers(s, IsTargetable);
    RemoveAllFilter(s, TargetableModules(s), IsTargetable);
  }

  lemma IdsSameMultiset(a: seq<Module>, b: seq<Module>)
    requires multiset(a) == multiset(b)
    ensures multiset(Ids(a)) == multiset(Ids(b))
  {
    IdsMultisetMonotone(a, b);
    IdsMultisetMonotone(b, a);
  }

  /** Each sorted targetable module is a targetable module of s. */
  lemma SortedTargetableMember(s: seq<Module>, k: nat)
    requires k < |SortedTargetable(s)|
    ensures SortedTargetable(s)[k] in s && IsTargetable(SortedTargetable(s)[k])
  {
    SortedTargetableFacts(s);
    FilterMembers(s, IsTargetable);
    assert SortedTargetable(s)[k] in multiset(SortedTargetable(s));
  }

  /**
   * The projected modules are targetable, and they count for the CAP only if
   * some targetable module of s does.
   */
  lemma ProjectedFlags(s: seq<Module>, goal: real, ts: seq<Module>)
    requires NewTargetModules(s, goal) == Some(ts)
    ensures forall m :: m in ts ==> IsTargetable(m)
    ensures (forall m :: m in s && IsTargetable(m) ==> !IsUsedForCapCalculation(m)) ==>
              forall m :: m in ts ==> !IsUsedForCapCalculation(m)
  {
    ProjectionShape(s, goal, ts);
    if TargetableCredit(s) > 0 {
      var sorted := SortedTargetable(s);
      forall k | 0 <= k < |ts|
        ensures ts[k].grade.targetable == sorted[k].grade.targetable
        ensures IsUsedForCapCalculation(ts[k]) == IsUsedForCapCalculation(sorted[k])
        ensures sorted[k] in s && IsTargetable(sorted[k])
      {
        SortedTargetableMember(s, k);
      }
    }
  }

  /** The goal after the update: still set (or unset) with its value; impossible exactly when the projection fails. */
  lemma TargetUpdateGoal(s: seq<Module>, goal: CapGoal)
    ensures TargetUpdate(s, goal).1.isSet == goal.isSet
    ensures TargetUpdate(s, goal).1.value == goal.value
    ensures !goal.isSet ==> TargetUpdate(s, goal) == (s, goal)
    ensures goal.isSet ==>
              (TargetUpdate(s, goal).1.isImpossible <==>
                 if TargetableCredit(s) == 0
                 then !(TotalMc(s) > 0 && goal.value * TotalMc(s) as real <= CurrentTotalPoint(s))
                 else ScoreToAchieve(s, goal.value) > 5.0 * TargetableCredit(s) as real)
  {
    if goal.isSet {
      ProjectionFeasible(s, goal.value);
    }
  }

  /**
   * The module list after the update: unchanged unless the projection
   * succeeded; the non-targetable modules are always kept in order; after a
   * successful projection over some targetable modules the targetable modules
   * are exactly the projected ones.
   */
  lemma TargetUpdateModules(s: seq<Module>, goal: CapGoal)
    ensures !goal.isSet || NewTargetModules(s, goal.value).None? ==> TargetUpdate(s, goal).0 == s
    ensures Filter(TargetUpdate(s, goal).0, Not(IsTargetable)) == Filter(s, Not(IsTargetable))
    ensures goal.isSet && NewTargetModules(s, goal.value).Some? && TargetableModules(s) != [] ==>
              Filter(TargetUpdate(s, goal).0, IsTargetable) == NewTargetModules(s, goal.value).value
  {
    if goal.isSet && NewTargetModules(s, goal.value).Some? && TargetableModules(s) != [] {
      var ts := NewTargetModules(s, goal.value).value;
      var kept := Filter(s, Not(IsTargetable));
      ProjectedFlags(s, goal.value, ts);
      RemoveTargetable(s);
      assert TargetUpdate(s, goal).0 == kept + ts;
      FilterAppend(kept, ts, Not(IsTargetable));
      FilterAppend(kept, ts, IsTargetable);
      FilterMembers(s, Not(IsTargetable));
      FilterAll(kept, Not(IsTargetable));
      FilterNone(kept, IsTargetable);
      FilterAll(ts, IsTargetable);
      FilterNone(ts, Not(IsTargetable));
    }
  }

  /** The update keeps the store invariant: the projected modules take the identities of those they replace. */
  lemma TargetUpdateUnique(s: seq<Module>, goal: CapGoal)
    requires Unique(s)
    ensures Unique(TargetUpdate(s, goal).0)
  {
    if goal.isSet && NewTargetModules(s, goal.value).Some? && TargetableModules(s) != [] {
      var ts := NewTargetModules(s, goal.value).value;
      var kept := Filter(s, Not(IsTargetable));
      var r := kept + ts;
      RemoveTargetable(s);
      assert TargetUpdate(s, goal).0 == r;
      FilterSplit(s, IsTargetable);
      ProjectionShape(s, goal.value, ts);
      SortedTargetableFacts(s);
      if TargetableCredit(s) == 0 {
        assert r == kept;
        FilterMembers(s, Not(IsTargetable));
        UniqueSubMultiset(s, r);
      } else {
        var u := kept + SortedTargetable(s);
        assert multiset(u) == multiset(s);
        IdsSameMultiset(u, s);
        IdsAppend(kept, ts);
        IdsAppend(kept, SortedTargetable(s));
        assert Ids(r) == Ids(u);
        UniqueFromIds(s, r);
      }
    }
  }

  /**
   * When no targetable module counts for the CAP, the update does not change
   * the CAP; this is why `setCapGoal` may leave `currentCap` as it is.
   */
  lemma TargetUpdateKeepsCap(s: seq<Module>, goal: CapGoal)
    requires forall m :: m in s && IsTargetable(m) ==> !IsUsedForCapCalculation(m)
    ensures CalculateCap(TargetUpdate(s, goal).0) == CalculateCap(s)
  {
    if goal.isSet && NewTargetModules(s, goal.value).Some? && TargetableModules(s) != [] {
      var ts := NewTargetModules(s, goal.value).value;
      var kept := Filter(s, Not(IsTargetable));
      ProjectedFlags(s, goal.value, ts);
      RemoveTargetable(s);
      assert TargetUpdate(s, goal).0 == kept + ts;
      FilterAppend(kept, ts, IsUsedForCapCalculation);
      FilterNone(ts, IsUsedForCapCalculation);
      FilterFilter(s, Not(IsTargetable), IsUsedForCapCalculation);
      assert GradedModules(kept + ts) == GradedModules(s);
    }
  }

  // ------------------------------------------------------ recomputation

  /** No targetable module counts for the CAP, neither as graded nor as adjusted. */
  predicate TargetsApart(s: seq<Module>)
  {
    forall m :: m in s && IsTargetable(m) ==> !IsUsedForCapCalculation(m) && !IsGradedAdjusted(m)
  }

  /** The projected modules are targetable and, when the targets stand apart, count for the CAP in neither way. */
  lemma ProjectedApart(s: seq<Module>, goal: real, ts: seq<Module>)
    requires TargetsApart(s) && NewTargetModules(s, goal) == Some(ts)
    ensures forall m :: m in ts ==> IsTargetable(m) && !IsUsedForCapCalculation(m) && !IsGradedAdjusted(m)
  {
    ProjectionShape(s, goal, ts);
    if TargetableCredit(s) > 0 {
      var sorted := SortedTargetable(s);
      forall k | 0 <= k < |ts|
        ensures IsTargetable(ts[k]) && !IsUsedForCapCalculation(ts[k]) && !IsGradedAdjusted(ts[k])
      {
        SortedTargetableMember(s, k);
        assert ts[k].grade.(point := sorted[k].grade.point, isTargeted := sorted[k].grade.isTargeted)
            == sorted[k].grade;
      }
    }
  }

  /**
   * After the kept modules are joined by projected modules that stand apart,
   * the graded and adjusted views are those of s and the targetable view is
   * exactly the projected modules.
   */
  lemma KeptViews(s: seq<Module>, ts: seq<Module>)
    requires TargetsApart(s)
    requires forall m :: m in ts ==> IsTargetable(m) && !IsUsedForCapCalculation(m) && !IsGradedAdjusted(m)
    ensures GradedModules(Filter(s, Not(IsTargetable)) + ts) == GradedModules(s)
    ensures GradedAdjustedModules(Filter(s, Not(IsTargetable)) + ts) == GradedAdjustedModules(s)
    ensures TargetableModules(Filter(s, Not(IsTargetable)) + ts) == ts
    ensures TargetsApart(Filter(s, Not(IsTargetable)) + ts)
  {
    var kept := Filter(s, Not(IsTargetable));
    FilterMembers(s, Not(IsTargetable));
    FilterAppend(kept, ts, IsUsedForCapCalculation);
    FilterAppend(kept, ts, IsGradedAdjusted);
    FilterAppend(kept, ts, IsTargetable);
    FilterNone(ts, IsUsedForCapCalculation);
    FilterNone(ts, IsGradedAdjusted);
    FilterAll(ts, IsTargetable);
    FilterNone(kept, IsTargetable);
    FilterFilter(s, Not(IsTargetable), IsUsedForCapCalculation);
    FilterFilter(s, Not(IsTargetable), IsGradedAdjusted);
  }

  /**
   * Over the list a successful update leaves behind, the projection gives
   * the same modules again: the totals are unchanged and the projected
   * modules are already in ascending-credit order.
   */
  lemma ReprojectSame(s: seq<Module>, goal: real, ts: seq<Module>)
    requires TargetsApart(s) && NewTargetModules(s, goal) == Some(ts)
    ensures NewTargetModules(Filter(s, Not(IsTargetable)) + ts, goal) == Some(ts)
  {
    var r := Filter(s, Not(IsTargetable)) + ts;
    ProjectedApart(s, goal, ts);
    KeptViews(s, ts);
    ProjectionCorrect(s, goal, ts);
    SortByCreditFacts(ts);
    assert TargetableCredit(r) == TargetableCredit(s);
    assert TotalMc(r) == TotalMc(s) && CurrentTotalPoint(r) == CurrentTotalPoint(s);
    if TargetableCredit(s) > 0 {
      var sorted := SortedTargetable(s);
      NewTargetsAssign(s, goal, ts);
      SortByCreditFacts(TargetableModules(s));
      AssignKeepsOrder(sorted, ScoreToAchieve(s, goal));
      SortByCreditSorted(ts);
      assert SortedTargetable(r) == ts;
      NewTargetModulesUnfold(r, goal);
      CreateTargetsAgain(sorted, ScoreToAchieve(s, goal));
    }
  }

  /**
   * Recomputing twice is recomputing once, when no targetable module counts
   * for the CAP: the second update keeps the modules, the projected grades
   * and the goal, and the CAP is that of the modules before the update.
   */
  lemma TargetUpdateIdempotent(s: seq<Module>, goal: CapGoal)
    requires TargetsApart(s)
    ensures TargetUpdate(TargetUpdate(s, goal).0, TargetUpdate(s, goal).1) == TargetUpdate(s, goal)
    ensures CalculateCap(TargetUpdate(TargetUpdate(s, goal).0, TargetUpdate(s, goal).1).0) == CalculateCap(s)
  {
    TargetUpdateKeepsCap(s, goal);
    if goal.isSet && NewTargetModules(s, goal.value).Some? && TargetableModules(s) != [] {
      var ts := NewTargetModules(s, goal.value).value;
      var kept := Filter(s, Not(IsTargetable));
      var r := kept + ts;
      RemoveTargetable(s);
      assert TargetUpdate(s, goal) == (r, NewCapGoal(goal.value));
      ReprojectSame(s, goal.value, ts);
      ProjectedApart(s, goal.value, ts);
      KeptViews(s, ts);
      if ts != [] {
        RemoveTargetable(r);
        TargetUpdateModules(s, goal);
        assert RemoveAll(r, ts) == kept;
      }
    }
  }

  // ------------------------------------------- modules without credit

  /**
   * An update that keeps targetable modules without credit: when the
   * targetable credit is zero there is nothing to project, and the modules
   * are left as they are instead of being replaced by the empty projection.
   */
  function TargetUpdateKeepingZeroCredit(s: seq<Module>, goal: CapGoal): (r: (seq<Module>, CapGoal))
    ensures r.1 == TargetUpdate(s, goal).1
    ensures TargetableCredit(s) > 0 ==> r == TargetUpdate(s, goal)
  {
    if !goal.isSet then (s, goal)
    else match NewTargetModules(s, goal.value)
      case None => (s, goal.MakeIsImpossible())
      case Some(ts) =>
        (if TargetableCredit(s) == 0 then s else ReplaceTargets(s, TargetableModules(s), ts), NewCapGoal(goal.value))
  }

  /** The corrected update keeps every module: the identities after it are those before it. */
  lemma TargetUpdateKeepingZeroCreditIds(s: seq<Module>, goal: CapGoal)
    ensures multiset(Ids(TargetUpdateKeepingZeroCredit(s, goal).0)) == multiset(Ids(s))
  {
    if goal.isSet && NewTargetModules(s, goal.value).Some? && TargetableModules(s) != [] && TargetableCredit(s) > 0 {
      var ts := NewTargetModules(s, goal.value).value;
      var kept := Filter(s, Not(IsTargetable));
      var r := kept + ts;
      RemoveTargetable(s);
      assert TargetUpdateKeepingZeroCredit(s, goal).0 == r;
      FilterSplit(s, IsTargetable);
      ProjectionShape(s, goal.value, ts);
      SortedTargetableFacts(s);
      var u := kept + SortedTargetable(s);
      assert multiset(u) == multiset(s);
      IdsSameMultiset(u, s);
      IdsAppend(kept, ts);
      IdsAppend(kept, SortedTargetable(s));
      assert Ids(r) == Ids(u);
    }
  }

  /**
   * As written, a goal set over a graded module and a targetable module
   * without credit deletes the targetable module from the transcript; the
   * corrected update keeps it.
   */
  lemma TargetUpdateDropsZeroCredit()
    ensures var graded := Module("A", 1, "1", 4, Grade(5.0, true, true, false, false, false));
            var empty := Module("B", 1, "1", 0, Grade(0.0, false, false, true, false, false));
            TargetUpdate([graded, empty], NewCapGoal(4.0)).0 == [graded] &&
            TargetUpdateKeepingZeroCredit([graded, empty], NewCapGoal(4.0)).0 == [graded, empty]
  {
    var graded := Module("A", 1, "1", 4, Grade(5.0, true, true, false, false, false));
    var empty := Module("B", 1, "1", 0, Grade(0.0, false, false, true, false, false));
    var s := [graded, empty];
    assert s == [graded] + [empty] && [empty] == [empty] + [];
    FilterCons(graded, [empty], IsTargetable);
    FilterCons(empty, [], IsTargetable);
    FilterCons(graded, [empty], IsUsedForCapCalculation);
    FilterCons(empty, [], IsUsedForCapCalculation);
    FilterCons(graded, [empty], IsGradedAdjusted);
    FilterCons(empty, [], IsGradedAdjusted);
    FilterCons(graded, [empty], Not(IsTargetable));
    FilterCons(empty, [], Not(IsTargetable));
    assert TargetableModules(s) == [empty];
    assert GradedModules(s) == [graded];
    assert GradedAdjustedModules(s) == [];
    assert SortByCredit([empty]) == Insert(empty, SortByCredit([]));
    assert SortedTargetable(s) == [empty];
    assert TargetableCredit(s) == 0 && TotalMc(s) == 4;
    assert CurrentTotalPoint(s) == 20.0;
    assert NewTargetModules(s, 4.0) == Some([]);
    assert Filter(s, Not(IsTargetable)) == [graded];
    RemoveTargetable(s);
  }

  function EqualTo(m: Module): Module -> bool
  {
    (x: Module) => x == m
  }

  /** Is the same module as (has the identity of) m. */
  function SameAs(m: Module): Module -> bool
  {
    (x: Module) => x.IsSameModule(m)
  }

  function HasCode(code: Code): Module -> bool
  {
    (x: Module) => x.code == code
  }

  predicate Completed(m: Module)
  {
    m.HasCompleted()
  }

  // ------------------------------------------------------------ the store

  class Transcript {
    var modules: seq<Module>
    var capGoal: CapGoal
    var currentCap: real

    /** No two modules with the same code, year and semester. */
    ghost predicate Valid()
      reads this
    {
      Unique(modules)
    }

    /** The state `modulesUpdated` leaves behind when the list was set to ms under goal. */
    ghost predicate UpdatedFrom(ms: seq<Module>, goal: CapGoal)
      reads this
    {
      (modules, capGoal) == TargetUpdate(ms, goal) && currentCap == CalculateCap(modules)
    }

    /** `new Transcript()`: no modules, no goal, CAP 0. */
    constructor()
      ensures Valid()
      ensures modules == [] && capGoal == NoGoal && currentCap == 0.0
    {
      modules := [];
      capGoal := NoGoal;
      currentCap := 0.0;
    }

    // -------------------------------------------------------- queries

    /** `hasModule`: some module has the identity of m. */
    function HasModule(m: Module): (r: bool)
      reads this
      ensures r <==> exists k :: 0 <= k < |modules| && modules[k].IsSameModule(m)
    {
      Contains(modules, m)
    }

    /** `hasMultipleInstances`: more than one module carries the code. */
    function HasMultipleInstances(code: Code): (r: bool)
      reads this
      ensures r <==> exists i, j :: 0 <= i < j < |modules| && modules[i].code == code && modules[j].code == code
    {
      FilterMoreThanOne(modules, HasCode(code));
      |Filter(modules, HasCode(code))| > 1
    }

    /** `findModule(Module)`: the module with the identity of m, if any. */
    function FindModule(m: Module): (r: Option<Module>)
      reads this
      ensures r.None? <==> !HasModule(m)
      ensures r.Some? ==> r.value in modules && r.value.IsSameModule(m)
      ensures r.Some? && Valid() ==> forall x :: x in modules && x.IsSameModule(m) ==> x == r.value
    {
      match FirstIndex(modules, SameAs(m))
      case None => None
      case Some(k) =>
        assert Valid() ==> forall j :: 0 <= j < |modules| && modules[j].IsSameModule(m) ==> j == k by {
          if Valid() {
            forall j | 0 <= j < |modules| && modules[j].IsSameModule(m) ensures j == k {
              UniqueOnlyOne(modules, j, k);
            }
          }
        }
        Some(modules[k])
    }

    /** `findModule(Code)`: the first module carrying the code, if any. */
    function FindModuleByCode(code: Code): (r: Option<Module>)
      reads this
      ensures r.None? <==> forall k :: 0 <= k < |modules| ==> modules[k].code != code
      ensures r.Some? ==> exists k :: 0 <= k < |modules| && modules[k] == r.value && r.value.code == code
                                      && forall j :: 0 <= j < k ==> modules[j].code != code
    {
      match FirstIndex(modules, HasCode(code))
      case None => None
      case Some(k) => Some(modules[k])
    }

    /** `getCompletedModuleList`. */
    function CompletedModules(): (r: seq<Module>)
      reads this
      ensures forall m :: m in r <==> m in modules && m.HasCompleted()
    {
      FilterMembers(modules, Completed);
      Filter(modules, Completed)
    }

    /** `getIncompleteModuleList`. */
    function IncompleteModules(): (r: seq<Module>)
      reads this
      ensures forall m :: m in r <==> m in modules && !m.HasCompleted()
    {
      FilterMembers(modules, Not(Completed));
      Filter(modules, Not(Completed))
    }

    /** Every module is in exactly one of the completed and the incomplete lists. */
    lemma CompletedSplit()
      ensures multiset(CompletedModules()) + multiset(IncompleteModules()) == multiset(modules)
    {
      FilterSplit(modules, Completed);
    }

    function GetCurrentCap(): real
      reads this
    {
      currentCap
    }

    function IsCapGoalImpossible(): bool
      reads this
    {
      capGoal.isImpossible
    }

    // ------------------------------------------------------ projection

    /** `createNewTargetModuleGrade`: the score still required, then the greedy loop. */
    method CreateNewTargetModuleGrade(
      sorted: seq<Module>, totalUngradedModuleCredit: real, totalMc: real, currentTotalPoint: real)
      returns (r: Option<seq<Module>>)
      requires LastPositive(sorted) && |sorted| > 0
      requires totalUngradedModuleCredit == CreditSum(sorted) as real
      ensures r == CreateTargets(sorted, ScoreFor(capGoal.value, totalMc, currentTotalPoint))
    {
      var totalScoreToAchieve := ScoreFor(capGoal.value, totalMc, currentTotalPoint);
      r := CalculateAndCreateNewTargetModuleGrade(sorted, totalUngradedModuleCredit, totalScoreToAchieve);
    }

    /** `getNewTargetModuleGrade`: None is the `null` that makes the goal impossible. */
    method GetNewTargetModuleGrade(targetableModules: seq<Module>) returns (r: Option<seq<Module>>)
      requires targetableModules == TargetableModules(modules)
      ensures r == NewTargetModules(modules, capGoal.value)
    {
      var gradedModules := GradedModules(modules);
      var adjustedModules := GradedAdjustedModules(modules);
      var sortedTargetableModules := SortByCredit(targetableModules);
      SortedTargetableFacts(modules);
      var totalUngradedModuleCredit := CalculateTotalModuleCredit(sortedTargetableModules);
      var gradedCredit := CalculateTotalModuleCredit(gradedModules);
      var adjustedCredit := CalculateTotalModuleCredit(adjustedModules);
      var totalMc := gradedCredit + adjustedCredit + totalUngradedModuleCredit;
      var gradedPoint := CalculateTotalModulePoint(gradedModules);
      var adjustedPoint := CalculateTotalModulePoint(adjustedModules);
      var currentTotalPoint := gradedPoint + adjustedPoint;
      if totalUngradedModuleCredit == 0 {
        if totalMc == 0 {
          return None;
        }
        var adjustedCap := currentTotalPoint / totalMc as real;
        if capGoal.value > adjustedCap {
          return None;
        }
        return Some([]);
      }
      r := CreateNewTargetModuleGrade(
        sortedTargetableModules, totalUngradedModuleCredit as real, totalMc as real, currentTotalPoint);
    }

    /** `updateTargetModuleGrades`: reruns the projection when a goal is set; the CAP is not touched. */
    method UpdateTargetModuleGrades()
      modifies this
      requires Valid()
      ensures Valid()
      ensures (modules, capGoal) == TargetUpdate(old(modules), old(capGoal))
      ensures currentCap == old(currentCap)
    {
      TargetUpdateUnique(modules, capGoal);
      var shouldSkip := !capGoal.isSet;
      if shouldSkip {
        return;
      }
      var targetableModules := TargetableModules(modules);
      var newTargetModules := GetNewTargetModuleGrade(targetableModules);
      if newTargetModules.None? {
        capGoal := capGoal.MakeIsImpossible();
        return;
      }
      capGoal := NewCapGoal(capGoal.value);
      ReplaceTargetModules(targetableModules, newTargetModules.value);
    }

    /** `replaceTargetModules`: `removeAll` of the targetable modules, then `addAll` of the new ones. */
    method ReplaceTargetModules(targetableModules: seq<Module>, newTargetModules: seq<Module>)
      modifies this
      ensures modules == ReplaceTargets(old(modules), targetableModules, newTargetModules)
      ensures capGoal == old(capGoal) && currentCap == old(currentCap)
    {
      if targetableModules == [] {
        return;
      }
      modules := RemoveAll(modules, targetableModules);
      modules := modules + newTargetModules;
    }

    /** `modulesUpdated`: the target grades first, then the CAP. */
    method ModulesUpdated()
      modifies this
      requires Valid()
      ensures Valid()
      ensures UpdatedFrom(old(modules), old(capGoal))
    {
      UpdateTargetModuleGrades();
      currentCap := CalculateCap(modules);
    }

    // ------------------------------------------------------ mutations

    /** `setModules`: a list with two modules of one identity is refused. */
    method SetModules(ms: seq<Module>) returns (r: Outcome<StoreError>)
      modifies this
      requires Valid()
      ensures Valid()
      ensures !Unique(ms) ==> r == Fail(DuplicateModule) && unchanged(this)
      ensures Unique(ms) ==> r == Pass && UpdatedFrom(ms, old(capGoal))
    {
      if !Unique(ms) {
        return Fail(DuplicateModule);
      }
      modules := ms;
      ModulesUpdated();
      return Pass;
    }

    /** `resetData`: the modules of the other transcript, then (without a recomputation) its goal. */
    method ResetData(ms: seq<Module>, goal: CapGoal) returns (r: Outcome<StoreError>)
      modifies this
      requires Valid()
      ensures Valid()
      ensures !Unique(ms) ==> r == Fail(DuplicateModule) && unchanged(this)
      ensures Unique(ms) ==> r == Pass && capGoal == goal
                             && modules == TargetUpdate(ms, old(capGoal)).0
                             && currentCap == CalculateCap(modules)
    {
      r := SetModules(ms);
      if r.Pass? {
        capGoal := goal;
      }
    }

    /** `addModule`: a module whose identity is already present is refused. */
    method AddModule(p: Module) returns (r: Outcome<StoreError>)
      modifies this
      requires Valid()
      ensures Valid()
      ensures Contains(old(modules), p) ==> r == Fail(DuplicateModule) && unchanged(this)
      ensures !Contains(old(modules), p) ==> r == Pass && UpdatedFrom(old(modules) + [p], old(capGoal))
    {
      if Contains(modules, p) {
        return Fail(DuplicateModule);
      }
      UniqueAppend(modules, p);
      modules := modules + [p];
      ModulesUpdated();
      return Pass;
    }

    /**
     * `updateModule`: the entry equal to target is overwritten by edited. The
     * target must be present, and edited may take a new identity only if no
     * module has it yet.
     */
    method UpdateModule(target: Module, edited: Module) returns (r: Outcome<StoreError>)
      modifies this
      requires Valid()
      ensures Valid()
      ensures target !in old(modules) ==> r == Fail(ModuleNotFound) && unchanged(this)
      ensures target in old(modules) && !target.IsSameModule(edited) && Contains(old(modules), edited) ==>
                r == Fail(DuplicateModule) && unchanged(this)
      ensures target in old(modules) && (target.IsSameModule(edited) || !Contains(old(modules), edited)) ==>
                r == Pass && FirstIndex(old(modules), EqualTo(target)).Some?
                && UpdatedFrom(old(modules)[FirstIndex(old(modules), EqualTo(target)).value := edited], old(capGoal))
    {
      var index := FirstIndex(modules, EqualTo(target));
      if index.None? {
        return Fail(ModuleNotFound);
      }
      if !target.IsSameModule(edited) && Contains(modules, edited) {
        return Fail(DuplicateModule);
      }
      UniqueReplace(modules, index.value, edited);
      modules := modules[index.value := edited];
      ModulesUpdated();
      return Pass;
    }

    /** `removeModule(Module)`: the entry equal to key goes; a missing key is refused. */
    method RemoveModule(key: Module) returns (r: Outcome<StoreError>)
      modifies this
      requires Valid()
      ensures Valid()
      ensures key !in old(modules) ==> r == Fail(ModuleNotFound) && unchanged(this)
      ensures key in old(modules) ==>
                r == Pass && FirstIndex(old(modules), EqualTo(key)).Some?
                && UpdatedFrom(RemoveAt(old(modules), FirstIndex(old(modules), EqualTo(key)).value), old(capGoal))
    {
      var index := FirstIndex(modules, EqualTo(key));
      if index.None? {
        return Fail(ModuleNotFound);
      }
      UniqueRemoveAt(modules, index.value);
      modules := RemoveAt(modules, index.value);
      ModulesUpdated();
      return Pass;
    }

    /** `removeModule(Predicate)`: every module satisfying p goes. */
    method RemoveModuleWhere(p: Module -> bool)
      modifies this
      requires Valid()
      ensures Valid()
      ensures UpdatedFrom(Filter(old(modules), Not(p)), old(capGoal))
    {
      FilterMembers(modules, Not(p));
      UniqueSubMultiset(modules, Filter(modules, Not(p)));
      modules := Filter(modules, Not(p));
      ModulesUpdated();
    }

    /**
     * `adjustModule`: a completed module cannot be adjusted; otherwise the
     * target is removed, the adjusted copy appended, and the adjusted copy
     * returned.
     */
    method AdjustModule(targetModule: Module, adjustGrade: Grade) returns (r: Result<Module, StoreError>)
      modifies this
      requires Valid()
      ensures Valid()
      ensures targetModule.HasCompleted() ==> r == Err(ModuleCompleted) && unchanged(this)
      ensures !targetModule.HasCompleted() && targetModule !in old(modules) ==>
                r == Err(ModuleNotFound) && unchanged(this)
      ensures !targetModule.HasCompleted() && targetModule in old(modules) ==>
                r == Ok(targetModule.AdjustGrade(adjustGrade))
                && FirstIndex(old(modules), EqualTo(targetModule)).Some?
                && UpdatedFrom(RemoveAt(old(modules), FirstIndex(old(modules), EqualTo(targetModule)).value)
                                 + [targetModule.AdjustGrade(adjustGrade)], old(capGoal))
    {
      if targetModule.HasCompleted() {
        return Err(ModuleCompleted);
      }
      var adjustedModule := targetModule.AdjustGrade(adjustGrade);
      var index := FirstIndex(modules, EqualTo(targetModule));
      if index.None? {
        return Err(ModuleNotFound);
      }
      UniqueRemoveAt(modules, index.value);
      modules := RemoveAt(modules, index.value);
      assert adjustedModule.Id() == targetModule.Id();
      UniqueAppend(modules, adjustedModule);
      modules := modules + [adjustedModule];
      ModulesUpdated();
      return Ok(adjustedModule);
    }

    /** `setCapGoal(double)`: a fresh goal, then only the target update; the CAP is not recomputed. */
    method SetCapGoal(value: real)
      modifies this
      requires Valid()
      ensures Valid()
      ensures (modules, capGoal) == TargetUpdate(old(modules), NewCapGoal(value))
      ensures currentCap == old(currentCap)
    {
      capGoal := NewCapGoal(value);
      UpdateTargetModuleGrades();
    }
  }

  /** `Model.commitTranscript` is a marker only: the model counts the commits. */
  class ModelManager {
    const transcript: Transcript
    var commits: nat

    constructor(t: Transcript)
      ensures transcript == t && commits == 0
    {
      transcript := t;
      commits := 0;
    }

    method CommitTranscript()
      modifies this
      ensures commits == old(commits) + 1
    {
      commits := commits + 1;
    }
  }
}
