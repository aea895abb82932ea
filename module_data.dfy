/**
 * The value types of the transcript: a module entry, its grade and the CAP goal.
 * Module, Grade and CapGoal are used but not defined by the transcript code, so
 * their status predicates are kept as independent flags: no relation between
 * them (for instance whether an adjusted module is also targetable) is assumed.
 */
module ModuleData {

  type Code = string
  type Semester = string

  /** A grade: its point value and the status flags the transcript asks about. */
  datatype Grade = Grade(
    point: real,
    isComplete: bool,
    affectsCap: bool,
    targetable: bool,
    isTargeted: bool,
    isAdjusted: bool)

  /** What makes two modules "the same module": code, year and semester. */
  datatype Identity = Identity(code: Code, year: int, semester: Semester)

  /** One line of the transcript. Credits are whole, non-negative numbers. */
  datatype Module = Module(code: Code, year: int, semester: Semester, credit: nat, grade: Grade)
  {
    function Id(): Identity { Identity(code, year, semester) }

    predicate IsSameModule(other: Module) { Id() == other.Id() }

    predicate HasCompleted() { grade.isComplete }
    predicate IsAffectCap() { grade.affectsCap }
    predicate IsTargetable() { grade.targetable }
    predicate IsTargetted() { grade.isTargeted }
    predicate IsAdjusted() { grade.isAdjusted }

    /** The copy of this module carrying the projected grade point p. */
    function UpdateTargetGrade(p: real): Module
    {
      this.(grade := grade.(point := p, isTargeted := true))
    }

    /** The copy of this module carrying the manually adjusted grade g. */
    function AdjustGrade(g: Grade): Module
    {
      this.(grade := g.(isAdjusted := true))
    }
  }

  /** The CAP goal: whether one is set, its value, and the feasibility flag. */
  datatype CapGoal = CapGoal(isSet: bool, value: real, isImpossible: bool)
  {
    /** `capGoal.makeIsImpossible()`: the same goal, marked impossible. */
    function MakeIsImpossible(): (g: CapGoal)
      ensures g.isSet == isSet && g.value == value && g.isImpossible
    {
      this.(isImpossible := true)
    }
  }

  /** `new CapGoal()`: no goal set. */
  const NoGoal: CapGoal := CapGoal(false, 0.0, false)

  /** `new CapGoal(value)`: a goal that is set and not (yet) impossible. */
  function NewCapGoal(value: real): CapGoal
  {
    CapGoal(true, value, false)
  }
}
