/**
 * The arguments of the `add` command: five fixed names, each with a short
 * form ("-" and one letter) and a long form ("--" and a word), and each
 * dispatching its value to its own value parser.
 */
module AddArguments {
  import opened Wrappers
  import opened ModuleData

  /** The prefix of a short name and of a long name (the parser utilities' constants). */
  const NamePrefixShort: string := "-"
  const NamePrefixLong: string := "--"

  datatype AddArgument = CODE | YEAR | SEMESTER | CREDIT | GRADE
  {
    /** The letter given to the enum constant. */
    function ShortLetter(): char
    {
      match this
      case CODE => 'm'
      case YEAR => 'y'
      case SEMESTER => 's'
      case CREDIT => 'c'
      case GRADE => 'g'
    }

    /** The word given to the enum constant. */
    function LongWord(): string
    {
      match this
      case CODE => "code"
      case YEAR => "year"
      case SEMESTER => "semester"
      case CREDIT => "credit"
      case GRADE => "grade"
    }

    /** `getShortName`: the short prefix followed by the letter. */
    function ShortName(): (r: string)
      ensures |r| == 2 && r[0] == '-' && r[1] != '-'
      ensures r[1..] == [ShortLetter()]
    {
      NamePrefixShort + [ShortLetter()]
    }

    /** `getLongName`: the long prefix followed by the word. */
    function LongName(): (r: string)
      ensures |r| >= 6 && r[..2] == "--"
      ensures r[2..] == LongWord()
    {
      NamePrefixLong + LongWord()
    }

    /**
     * `getValue`: each constant hands the text to its own parser; a value
     * that is produced always belongs to this argument.
     */
    function GetValue(value: string, p: ValueParsers): (r: Result<Value, string>)
      ensures r.Ok? ==> r.value.Kind() == this
      ensures r.Err? <==> p.Fails(this, value)
      ensures this == CODE && r.Ok? ==> r.value.code == p.parseCode(value).value
      ensures this == YEAR && r.Ok? ==> r.value.year == p.parseYear(value).value
      ensures this == SEMESTER && r.Ok? ==> r.value.semester == p.parseSemester(value).value
      ensures this == CREDIT && r.Ok? ==> r.value.credit == p.parseCredit(value).value
      ensures this == GRADE && r.Ok? ==> r.value.grade == p.parseGrade(value).value
    {
      match this
      case CODE =>
        (match p.parseCode(value) case Ok(c) => Ok(CodeValue(c)) case Err(e) => Err(e))
      case YEAR =>
        (match p.parseYear(value) case Ok(y) => Ok(YearValue(y)) case Err(e) => Err(e))
      case SEMESTER =>
        (match p.parseSemester(value) case Ok(s) => Ok(SemesterValue(s)) case Err(e) => Err(e))
      case CREDIT =>
        (match p.parseCredit(value) case Ok(c) => Ok(CreditValue(c)) case Err(e) => Err(e))
      case GRADE =>
        (match p.parseGrade(value) case Ok(g) => Ok(GradeValue(g)) case Err(e) => Err(e))
    }
  }

  /** `AddArgument.values()`, in declaration order. */
  const AllArguments: seq<AddArgument> := [CODE, YEAR, SEMESTER, CREDIT, GRADE]

  /** A parsed value, tagged with the kind of object the Java code casts it to. */
  datatype Value =
    | CodeValue(code: Code)
    | YearValue(year: int)
    | SemesterValue(semester: Semester)
    | CreditValue(credit: nat)
    | GradeValue(grade: Grade)
  {
    function Kind(): AddArgument
    {
      match this
      case CodeValue(_) => CODE
      case YearValue(_) => YEAR
      case SemesterValue(_) => SEMESTER
      case CreditValue(_) => CREDIT
      case GradeValue(_) => GRADE
    }
  }

  /**
   * The value parsers of the parser utilities (`parseCode`, `parseYear`,
   * `parseSemester`, `parseCredit`, `parseGrade`); they are not part of this
   * model and are taken as given functions. An error carries the message of
   * the `ParseException`.
   */
  datatype ValueParsers = ValueParsers(
    parseCode: string -> Result<Code, string>,
    parseYear: string -> Result<int, string>,
    parseSemester: string -> Result<Semester, string>,
    parseCredit: string -> Result<nat, string>,
    parseGrade: string -> Result<Grade, string>)
  {
    /** The parser that argument a dispatches to rejects the text. */
    predicate Fails(a: AddArgument, value: string)
    {
      match a
      case CODE => parseCode(value).Err?
      case YEAR => parseYear(value).Err?
      case SEMESTER => parseSemester(value).Err?
      case CREDIT => parseCredit(value).Err?
      case GRADE => parseGrade(value).Err?
    }
  }

  // ------------------------------------------------------------- lemmas

  /** There are exactly five arguments, each listed once. */
  lemma AllArgumentsComplete()
    ensures |AllArguments| == 5
    ensures forall a: AddArgument :: a in AllArguments
    ensures forall i, j :: 0 <= i < j < |AllArguments| ==> AllArguments[i] != AllArguments[j]
  {
    forall a: AddArgument ensures a in AllArguments {
      match a
      case CODE => assert AllArguments[0] == a;
      case YEAR => assert AllArguments[1] == a;
      case SEMESTER => assert AllArguments[2] == a;
      case CREDIT => assert AllArguments[3] == a;
      case GRADE => assert AllArguments[4] == a;
    }
  }

  /** The short names of two different arguments differ. */
  lemma ShortNamesDistinct(a: AddArgument, b: AddArgument)
    ensures a.ShortName() == b.ShortName() <==> a == b
  {
    if a.ShortName() == b.ShortName() {
      assert [a.ShortLetter()] == a.ShortName()[1..] == b.ShortName()[1..] == [b.ShortLetter()];
    }
  }

  /** The long names of two different arguments differ. */
  lemma LongNamesDistinct(a: AddArgument, b: AddArgument)
    ensures a.LongName() == b.LongName() <==> a == b
  {
    if a.LongName() == b.LongName() {
      assert a.LongWord() == a.LongName()[2..] == b.LongName()[2..] == b.LongWord();
    }
  }

  /** No short name is also a long name. */
  lemma ShortAndLongNamesDisjoint(a: AddArgument, b: AddArgument)
    ensures a.ShortName() != b.LongName()
  {
    assert |a.ShortName()| != |b.LongName()|;
  }
}
