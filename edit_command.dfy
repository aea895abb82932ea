/**
 * The `edit` command: find the one module the target fields name, refuse a
 * grade change on an incomplete module, build the edited module from the
 * given new fields, refuse an identity that is already taken and an edit
 * that changes nothing, and only then update the transcript and commit.
 */
module EditCommand {
  import opened Wrappers
  import opened ModuleData
  import opened ModuleList
  import opened TranscriptModel
  import opened CommandText

  const CommandWord: string := "edit"
  const MessageEditSuccess: string := "Edited module: %1$s"
  const MessageIncompleteModuleGradeChange: string :=
    "Cannot change grade of incomplete modules. Use adjust to change grade of incomplete modules."
  /** The two literals of the Java constant are joined without a space. */
  const MessageModuleAlreadyExist: string := "Edited modulealready exist."
  const MessageMultipleModuleEntries: string :=
    "Multiple module entries with the same module code exist but year or semester is not specified."
  const MessageNoSuchModule: string := "No such module."
  const MessageNoChanges: string := "No changes"

  /** The feedback of an accepted edit: the success template around the rendered module. */
  function SuccessMessage(shown: string): (r: string)
    ensures r == "Edited module: " + shown
  {
    FormatTrailing("Edited module: ", shown);
    assert MessageEditSuccess == "Edited module: " + Specifier;
    Format(MessageEditSuccess, shown)
  }

  /**
   * `new EditModuleCommand(argMap)`: None stands for an absent (null) field,
   * and a None result for the failed `assert` (target code given; target year
   * given exactly when target semester is; some new field given).
   */
  function NewEditModuleCommand(
    targetCode: Option<Code>, targetYear: Option<int>, targetSemester: Option<Semester>,
    newCode: Option<Code>, newYear: Option<int>, newSemester: Option<Semester>,
    newCredit: Option<nat>, newGrade: Option<Grade>): (r: Option<EditModuleCommand>)
    ensures r.Some? <==> targetCode.Some? && (targetYear.None? <==> targetSemester.None?)
                         && (newCode.Some? || newYear.Some? || newSemester.Some? || newCredit.Some? || newGrade.Some?)
    ensures r.Some? ==> r.value.WellFormed() && r.value.targetCode == targetCode.value
                        && r.value.targetYear == targetYear && r.value.targetSemester == targetSemester
                        && r.value.newCode == newCode && r.value.newYear == newYear
                        && r.value.newSemester == newSemester && r.value.newCredit == newCredit
                        && r.value.newGrade == newGrade
  {
    if targetCode.None? then None
    else
      var c := EditModuleCommand(targetCode.value, targetYear, targetSemester,
                                 newCode, newYear, newSemester, newCredit, newGrade);
      if c.WellFormed() then Some(c) else None
  }

  datatype EditModuleCommand = EditModuleCommand(
    targetCode: Code,
    targetYear: Option<int>,
    targetSemester: Option<Semester>,
    newCode: Option<Code>,
    newYear: Option<int>,
    newSemester: Option<Semester>,
    newCredit: Option<nat>,
    newGrade: Option<Grade>)
  {
    /** The constructor's assumptions about the target year and semester and the new fields. */
    predicate WellFormed()
    {
      (targetYear.None? <==> targetSemester.None?)
      && (newCode.Some? || newYear.Some? || newSemester.Some? || newCredit.Some? || newGrade.Some?)
    }

    /** Some part of the identity (code, year or semester) is given a new value. */
    predicate IdentifierSupplied()
    {
      newCode.Some? || newYear.Some? || newSemester.Some?
    }

    /** `isTargetModule`: the code alone without target year and semester, otherwise all three. */
    predicate IsTargetModule(m: Module)
    {
      if targetYear.None? && targetSemester.None? then m.code == targetCode
      else m.code == targetCode && Some(m.year) == targetYear && Some(m.semester) == targetSemester
    }

    function Targets(): Module -> bool
    {
      (m: Module) => IsTargetModule(m)
    }

    /** `getTargetModule`: no match and several matches are refused; otherwise the one match. */
    function GetTargetModule(ms: seq<Module>): (r: Result<Module, string>)
      ensures r == Err(MessageNoSuchModule) <==> forall k :: 0 <= k < |ms| ==> !IsTargetModule(ms[k])
      ensures r == Err(MessageMultipleModuleEntries) <==>
                exists i, j :: 0 <= i < j < |ms| && IsTargetModule(ms[i]) && IsTargetModule(ms[j])
      ensures r.Err? ==> r.error == MessageNoSuchModule || r.error == MessageMultipleModuleEntries
      ensures r.Ok? ==> r.value in ms && IsTargetModule(r.value)
                        && forall k :: 0 <= k < |ms| && IsTargetModule(ms[k]) ==> ms[k] == r.value
    {
      var filtered := Filter(ms, Targets());
      FilterNonEmpty(ms, Targets());
      FilterMoreThanOne(ms, Targets());
      FilterMembers(ms, Targets());
      assert |MessageNoSuchModule| != |MessageMultipleModuleEntries|;
      if |filtered| == 0 then Err(MessageNoSuchModule)
      else if |filtered| > 1 then Err(MessageMultipleModuleEntries)
      else
        assert filtered[0] in filtered;
        assert forall m :: m in filtered ==> m == filtered[0];
        Ok(filtered[0])
    }

    /** `createEditedModule`: the target with each given new field put in place of its own. */
    function CreateEditedModule(target: Module): (r: Module)
      ensures r.code == (if newCode.Some? then newCode.value else target.code)
      ensures r.year == (if newYear.Some? then newYear.value else target.year)
      ensures r.semester == (if newSemester.Some? then newSemester.value else target.semester)
      ensures r.credit == (if newCredit.Some? then newCredit.value else target.credit)
      ensures r.grade == (if newGrade.Some? then newGrade.value else target.grade)
    {
      var b0 := target;
      var b1 := if newCode.Some? then b0.(code := newCode.value) else b0;
      var b2 := if newYear.Some? then b1.(year := newYear.value) else b1;
      var b3 := if newSemester.Some? then b2.(semester := newSemester.value) else b2;
      var b4 := if newCredit.Some? then b3.(credit := newCredit.value) else b3;
      if newGrade.Some? then b4.(grade := newGrade.value) else b4
    }

    /** `moduleCompletedIfGradeChange`: a new grade for an incomplete module is refused. */
    function ModuleCompletedIfGradeChange(target: Module): (r: Outcome<string>)
      ensures r.Fail? <==> !target.HasCompleted() && newGrade.Some?
      ensures r.Fail? ==> r.error == MessageIncompleteModuleGradeChange
    {
      var targetIncomplete := !target.grade.isComplete;
      var newGradeNotNull := newGrade.Some?;
      if targetIncomplete && newGradeNotNull then Fail(MessageIncompleteModuleGradeChange) else Pass
    }

    /**
     * `editedModuleExist`: when some identity field is given, an edited
     * module whose identity is in the list is refused, the target's own
     * included.
     */
    function EditedModuleExist(ms: seq<Module>, edited: Module): (r: Outcome<string>)
      ensures r.Fail? <==> IdentifierSupplied() && exists k :: 0 <= k < |ms| && ms[k].IsSameModule(edited)
      ensures r.Fail? ==> r.error == MessageModuleAlreadyExist
    {
      var identifierNotChanged := newCode.None? && newYear.None? && newSemester.None?;
      if identifierNotChanged then Pass
      else if Contains(ms, edited) then Fail(MessageModuleAlreadyExist)
      else Pass
    }

    /**
     * The checks of `execute`, in their order: lookup, grade rule, identity
     * collision, no change. Ok holds the target and the edited module.
     */
    function Decide(ms: seq<Module>): (r: Result<(Module, Module), string>)
    {
      match GetTargetModule(ms)
      case Err(e) => Err(e)
      case Ok(target) =>
        match ModuleCompletedIfGradeChange(target)
        case Fail(e) => Err(e)
        case Pass =>
          var edited := CreateEditedModule(target);
          match EditedModuleExist(ms, edited)
          case Fail(e) => Err(e)
          case Pass =>
            if target == edited then Err(MessageNoChanges) else Ok((target, edited))
    }

    /**
     * `execute`: a refused edit changes nothing; an accepted one overwrites
     * the target in the transcript (which then recomputes) and commits once.
     * The rendering of a module is not part of this model: `show` stands for it.
     */
    method Execute(model: ModelManager, show: Module -> string) returns (r: Result<string, string>)
      requires model.transcript.Valid()
      modifies model, model.transcript
      ensures model.transcript.Valid()
      ensures Decide(old(model.transcript.modules)).Err? ==>
                r == Err(Decide(old(model.transcript.modules)).error) && unchanged(model, model.transcript)
      ensures Decide(old(model.transcript.modules)).Ok? ==>
                var (target, edited) := Decide(old(model.transcript.modules)).value;
                r == Ok(SuccessMessage(show(edited)))
                && FirstIndex(old(model.transcript.modules), EqualTo(target)).Some?
                && model.transcript.UpdatedFrom(
                     old(model.transcript.modules)[FirstIndex(old(model.transcript.modules), EqualTo(target)).value := edited],
                     old(model.transcript.capGoal))
                && model.commits == old(model.commits) + 1
    {
      var ms := model.transcript.modules;
      var found := GetTargetModule(ms);
      if found.Err? {
        return Err(found.error);
      }
      var target := found.value;
      var gradeRule := ModuleCompletedIfGradeChange(target);
      if gradeRule.Fail? {
        return Err(gradeRule.error);
      }
      var edited := CreateEditedModule(target);
      var collision := EditedModuleExist(ms, edited);
      if collision.Fail? {
        return Err(collision.error);
      }
      if target == edited {
        return Err(MessageNoChanges);
      }
      AcceptedEditApplies(this, ms);
      var updated := model.transcript.UpdateModule(target, edited);
      assert updated.Pass?;
      model.CommitTranscript();
      return Ok(SuccessMessage(show(edited)));
    }
  }

  // ------------------------------------------------------------- lemmas

  /**
   * For a well-formed command the target is named by its code alone, or by
   * its whole identity when year and semester are given.
   */
  lemma TargetMatch(c: EditModuleCommand, m: Module)
    requires c.WellFormed()
    ensures c.IsTargetModule(m) <==>
              if c.targetYear.None? then m.code == c.targetCode
              else m.Id() == Identity(c.targetCode, c.targetYear.value, c.targetSemester.value)
  {
  }

  /** With a target year but no target semester (or the reverse) nothing matches. */
  lemma HalfTargetMatchesNothing(c: EditModuleCommand, ms: seq<Module>)
    requires c.targetYear.None? != c.targetSemester.None?
    ensures c.GetTargetModule(ms) == Err(MessageNoSuchModule)
  {
  }

  /** In a duplicate-free list a target given by its whole identity is never ambiguous. */
  lemma FullTargetUnambiguous(c: EditModuleCommand, ms: seq<Module>)
    requires Unique(ms) && c.targetYear.Some? && c.targetSemester.Some?
    ensures c.GetTargetModule(ms) != Err(MessageMultipleModuleEntries)
  {
  }

  /** Without a new code, year or semester the edited module keeps the target's identity. */
  lemma EditKeepsIdentity(c: EditModuleCommand, target: Module)
    requires !c.IdentifierSupplied()
    ensures c.CreateEditedModule(target).IsSameModule(target)
  {
  }

  /** The edited module equals the target exactly when every given field repeats the target's own. */
  lemma EditChangesNothingIff(c: EditModuleCommand, target: Module)
    ensures c.CreateEditedModule(target) == target <==>
              (c.newCode.None? || c.newCode.value == target.code)
              && (c.newYear.None? || c.newYear.value == target.year)
              && (c.newSemester.None? || c.newSemester.value == target.semester)
              && (c.newCredit.None? || c.newCredit.value == target.credit)
              && (c.newGrade.None? || c.newGrade.value == target.grade)
  {
    var e := c.CreateEditedModule(target);
    if e == target {
      assert e.code == target.code && e.year == target.year && e.semester == target.semester;
      assert e.credit == target.credit && e.grade == target.grade;
    }
  }

  /**
   * An accepted edit is one the transcript's `updateModule` takes: the
   * target is the single match, the grade rule holds, the edited module
   * differs from it and takes no identity held by another module.
   */
  lemma AcceptedEditApplies(c: EditModuleCommand, ms: seq<Module>)
    requires c.Decide(ms).Ok?
    ensures var (target, edited) := c.Decide(ms).value;
              c.GetTargetModule(ms) == Ok(target) && target in ms
              && edited == c.CreateEditedModule(target) && edited != target
              && (target.HasCompleted() || c.newGrade.None?)
              && (target.IsSameModule(edited) || !Contains(ms, edited))
  {
    var (target, edited) := c.Decide(ms).value;
    if !c.IdentifierSupplied() {
      EditKeepsIdentity(c, target);
    }
  }

  /** An accepted edit of a duplicate-free list leaves it duplicate-free. */
  lemma AcceptedEditKeepsUnique(c: EditModuleCommand, ms: seq<Module>)
    requires Unique(ms) && c.Decide(ms).Ok?
    ensures FirstIndex(ms, EqualTo(c.Decide(ms).value.0)).Some?
    ensures Unique(ms[FirstIndex(ms, EqualTo(c.Decide(ms).value.0)).value := c.Decide(ms).value.1])
  {
    var (target, edited) := c.Decide(ms).value;
    AcceptedEditApplies(c, ms);
    var k := FirstIndex(ms, EqualTo(target)).value;
    UniqueReplace(ms, k, edited);
  }

  /**
   * A new grade for an incomplete target is refused whatever else the
   * command says, since the grade rule is checked before anything else.
   */
  lemma IncompleteGradeChangeRefused(c: EditModuleCommand, ms: seq<Module>, target: Module)
    requires c.GetTargetModule(ms) == Ok(target)
    requires !target.HasCompleted() && c.newGrade.Some?
    ensures c.Decide(ms) == Err(MessageIncompleteModuleGradeChange)
  {
  }

  /**
   * Re-supplying the target's own identity is refused as a collision, even
   * when the credit or the grade would change.
   */
  lemma ResuppliedIdentityRefused(c: EditModuleCommand, ms: seq<Module>, target: Module)
    requires c.GetTargetModule(ms) == Ok(target)
    requires target.HasCompleted() || c.newGrade.None?
    requires c.IdentifierSupplied() && c.CreateEditedModule(target).IsSameModule(target)
    ensures c.Decide(ms) == Err(MessageModuleAlreadyExist)
  {
    assert c.EditedModuleExist(ms, c.CreateEditedModule(target)).Fail? by {
      var k :| 0 <= k < |ms| && ms[k] == target;
    }
  }

  /** A new grade for a completed module found by its code alone is accepted when it differs. */
  lemma GradeEditAccepted(c: EditModuleCommand, ms: seq<Module>, target: Module, g: Grade)
    requires c.GetTargetModule(ms) == Ok(target) && target.HasCompleted()
    requires c.newCode.None? && c.newYear.None? && c.newSemester.None? && c.newCredit.None?
    requires c.newGrade == Some(g) && g != target.grade
    ensures c.Decide(ms) == Ok((target, target.(grade := g)))
  {
    assert c.CreateEditedModule(target) == target.(grade := g);
  }
}
