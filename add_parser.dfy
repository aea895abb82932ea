/**
 * The argument grammar of the `add` command: 8 or 10 tokens, alternating
 * names and values, names taken from the table of short and long argument
 * names and never repeated; each value goes to its argument's value parser,
 * and the module is built from the parsed values.
 */
module AddParser {
  import opened Wrappers
  import opened ModuleData
  import opened AddArguments
  import opened AddCommand

  const MessageInvalidNumberOfArguments: string :=
    "Invalid number of arguments! Number of arguments should be 8, 10"

  /** Why `parse` refuses its input. */
  datatype ParseFailure =
    | NullPointer                  // the `NullPointerException`: a null string, or a name outside the table
    | InvalidNumberOfArguments     // MessageInvalidNumberOfArguments
    | InvalidFormat                // the parser's invalid-format message followed by the usage
    | InvalidValue(message: string) // a value parser's message

  // ------------------------------------------------ the name table

  /** The table after `put`ting the short and then the long name of each argument of xs, in order. */
  function NameTable(xs: seq<AddArgument>): map<string, AddArgument>
  {
    if xs == [] then map[]
    else
      var a := xs[|xs| - 1];
      NameTable(xs[..|xs| - 1])[a.ShortName() := a][a.LongName() := a]
  }

  /** `NAME_TO_ARGUMENT_MAP`. */
  function NameToArgumentMap(): map<string, AddArgument>
  {
    NameTable(AllArguments)
  }

  /** The static block that fills the table. */
  method BuildNameToArgumentMap() returns (m: map<string, AddArgument>)
    ensures m == NameToArgumentMap()
  {
    m := map[];
    for i := 0 to |AllArguments|
      invariant m == NameTable(AllArguments[..i])
    {
      var instance := AllArguments[i];
      assert AllArguments[..i + 1][..i] == AllArguments[..i];
      m := m[instance.ShortName() := instance];
      m := m[instance.LongName() := instance];
    }
    assert AllArguments[..|AllArguments|] == AllArguments;
  }

  /** A key of the table is the short or the long name of the argument it maps to, an argument of xs. */
  lemma {:induction false} NameTableKey(xs: seq<AddArgument>, k: string)
    requires k in NameTable(xs)
    ensures NameTable(xs)[k] in xs
    ensures k == NameTable(xs)[k].ShortName() || k == NameTable(xs)[k].LongName()
  {
    var init := xs[..|xs| - 1];
    var a := xs[|xs| - 1];
    var m0 := NameTable(init);
    assert NameTable(xs) == m0[a.ShortName() := a][a.LongName() := a];
    if k != a.ShortName() && k != a.LongName() {
      NameTableKey(init, k);
      var i := IndexIn(init, m0[k]);
      assert init[i] == xs[i];
    }
  }

  function IndexIn(xs: seq<AddArgument>, a: AddArgument): (i: nat)
    requires a in xs
    ensures i < |xs| && xs[i] == a
  {
    if xs[0] == a then 0 else 1 + IndexIn(xs[1..], a)
  }

  /** Both names of an argument of xs are keys of the table. */
  lemma {:induction false} NameTableHasNames(xs: seq<AddArgument>, i: nat)
    requires i < |xs|
    ensures xs[i].ShortName() in NameTable(xs) && xs[i].LongName() in NameTable(xs)
  {
    var init := xs[..|xs| - 1];
    if i < |init| {
      NameTableHasNames(init, i);
      assert init[i] == xs[i];
    }
  }

  /** In a table built from xs, both names of an argument of xs lead to it. */
  lemma NameTableLookup(xs: seq<AddArgument>, a: AddArgument)
    requires a in xs
    ensures a.ShortName() in NameTable(xs) && NameTable(xs)[a.ShortName()] == a
    ensures a.LongName() in NameTable(xs) && NameTable(xs)[a.LongName()] == a
  {
    NameTableHasNames(xs, IndexIn(xs, a));
    NameTableKey(xs, a.ShortName());
    NameTableKey(xs, a.LongName());
    var b := NameTable(xs)[a.ShortName()];
    ShortNamesDistinct(a, b);
    ShortAndLongNamesDisjoint(a, b);
    var d := NameTable(xs)[a.LongName()];
    LongNamesDistinct(a, d);
    ShortAndLongNamesDisjoint(d, a);
  }

  /** The table maps the two names of every argument to it, and has no other keys. */
  lemma NameToArgumentMapFacts()
    ensures forall a: AddArgument :: a.ShortName() in NameToArgumentMap() && NameToArgumentMap()[a.ShortName()] == a
    ensures forall a: AddArgument :: a.LongName() in NameToArgumentMap() && NameToArgumentMap()[a.LongName()] == a
    ensures forall k :: k in NameToArgumentMap() ==>
              k == NameToArgumentMap()[k].ShortName() || k == NameToArgumentMap()[k].LongName()
  {
    AllArgumentsComplete();
    forall a: AddArgument
      ensures a.ShortName() in NameToArgumentMap() && NameToArgumentMap()[a.ShortName()] == a
      ensures a.LongName() in NameToArgumentMap() && NameToArgumentMap()[a.LongName()] == a
    {
      NameTableLookup(AllArguments, a);
    }
    forall k | k in NameToArgumentMap()
      ensures k == NameToArgumentMap()[k].ShortName() || k == NameToArgumentMap()[k].LongName()
    {
      NameTableKey(AllArguments, k);
    }
  }

  /** A token that is not two characters long and whose second character is not '-' is not a name of the table. */
  lemma NotInNameTable(k: string)
    requires |k| != 2 && (|k| < 2 || k[1] != '-')
    ensures k !in NameToArgumentMap()
  {
    if k in NameToArgumentMap() {
      NameTableKey(AllArguments, k);
    }
  }

  // ------------------------------------------------ the token checks

  /** A token is a name when it starts with the name prefix. */
  predicate IsName(token: string)
  {
    |token| > 0 && token[0] == '-'
  }

  /** `argsWithBounds(args, {8, 10})`. */
  predicate ArgsWithBounds(args: seq<string>)
  {
    |args| == 8 || |args| == 10
  }

  /** `argsAreNameValuePair`: names at the even positions, values at the odd ones. */
  predicate ArgsAreNameValuePair(args: seq<string>)
  {
    forall i :: 0 <= i < |args| ==> (IsName(args[i]) <==> i % 2 == 0)
  }

  /** Every name (every token at an even position) is a key of the table. */
  predicate NamesKnown(names: map<string, AddArgument>, args: seq<string>)
  {
    forall i :: 0 <= i < |args| && i % 2 == 0 ==> args[i] in names
  }

  /** `validateName`: every name is in the table and no name is given twice. */
  predicate ValidateName(names: map<string, AddArgument>, args: seq<string>)
  {
    NamesKnown(names, args)
    && forall i, j :: 0 <= i < j < |args| && i % 2 == 0 && j % 2 == 0 ==> args[i] != args[j]
  }

  /** The three checks of `parse`, in their order. */
  function Validate(names: map<string, AddArgument>, args: seq<string>): (r: Outcome<ParseFailure>)
    ensures r == Fail(InvalidNumberOfArguments) <==> !ArgsWithBounds(args)
    ensures r == Fail(InvalidFormat) <==>
              ArgsWithBounds(args) && !(ArgsAreNameValuePair(args) && ValidateName(names, args))
    ensures r == Pass <==> ArgsWithBounds(args) && ArgsAreNameValuePair(args) && ValidateName(names, args)
  {
    if !ArgsWithBounds(args) then Fail(InvalidNumberOfArguments)
    else if !ArgsAreNameValuePair(args) then Fail(InvalidFormat)
    else if !ValidateName(names, args) then Fail(InvalidFormat)
    else Pass
  }

  // ------------------------------------------------ the values

  /** The argument map after some pairs, and why the loop stopped early, if it did. */
  datatype Filled = Filled(argMap: map<AddArgument, Value>, failure: Option<ParseFailure>)

  /** Each argument of the map holds a value of its own kind (so the casts of the builder succeed). */
  predicate WellKinded(argMap: map<AddArgument, Value>)
  {
    forall a :: a in argMap ==> argMap[a].Kind() == a
  }

  /**
   * The effect of `parseValues` on the first k tokens (k even): one entry
   * per pair, stopping at a name outside the table (the `null` argument
   * whose `getValue` throws) or at a value its parser refuses.
   */
  function FillPairs(names: map<string, AddArgument>, args: seq<string>, k: nat, p: ValueParsers): (r: Filled)
    requires k <= |args| && k % 2 == 0
    ensures WellKinded(r.argMap)
  {
    if k == 0 then Filled(map[], None)
    else
      var f := FillPairs(names, args, k - 2, p);
      if f.failure.Some? then f
      else if args[k - 2] !in names then Filled(f.argMap, Some(NullPointer))
      else
        var name := names[args[k - 2]];
        match name.GetValue(args[k - 1], p)
        case Err(e) => Filled(f.argMap, Some(InvalidValue(e)))
        case Ok(v) => Filled(f.argMap[name := v], None)
  }

  /** One more pair after k tokens without a stop: the three ways `parseValues` may go on. */
  lemma FillPairsNext(names: map<string, AddArgument>, args: seq<string>, k: nat, p: ValueParsers)
    requires k + 2 <= |args| && k % 2 == 0
    requires FillPairs(names, args, k, p).failure.None?
    ensures args[k] !in names ==>
              FillPairs(names, args, k + 2, p) == Filled(FillPairs(names, args, k, p).argMap, Some(NullPointer))
    ensures args[k] in names && names[args[k]].GetValue(args[k + 1], p).Err? ==>
              FillPairs(names, args, k + 2, p)
              == Filled(FillPairs(names, args, k, p).argMap, Some(InvalidValue(names[args[k]].GetValue(args[k + 1], p).error)))
    ensures args[k] in names && names[args[k]].GetValue(args[k + 1], p).Ok? ==>
              FillPairs(names, args, k + 2, p)
              == Filled(FillPairs(names, args, k, p).argMap[names[args[k]] := names[args[k]].GetValue(args[k + 1], p).value], None)
  {
  }

  /** Once the loop has stopped, later pairs change nothing. */
  lemma {:induction false} FillPairsStops(names: map<string, AddArgument>, args: seq<string>, k: nat, m: nat, p: ValueParsers)
    requires k <= m <= |args| && k % 2 == 0 && m % 2 == 0
    requires FillPairs(names, args, k, p).failure.Some?
    ensures FillPairs(names, args, m, p) == FillPairs(names, args, k, p)
  {
    if k < m {
      FillPairsStops(names, args, k, m - 2, p);
    }
  }

  /** When every name is in the table, the loop only ever stops at a refused value. */
  lemma {:induction false} FillPairsRefusals(names: map<string, AddArgument>, args: seq<string>, k: nat, p: ValueParsers)
    requires k <= |args| && k % 2 == 0 && NamesKnown(names, args)
    ensures FillPairs(names, args, k, p).failure.Some? ==> FillPairs(names, args, k, p).failure.value.InvalidValue?
  {
    if k > 0 {
      FillPairsRefusals(names, args, k - 2, p);
    }
  }

  /** A pair that was taken: its name is in the table and its value was parsed. */
  lemma FillStep(names: map<string, AddArgument>, args: seq<string>, k: nat, p: ValueParsers) returns (f: Filled)
    requires 0 < k <= |args| && k % 2 == 0
    requires FillPairs(names, args, k, p).failure.None?
    ensures f == FillPairs(names, args, k - 2, p) && f.failure.None?
    ensures args[k - 2] in names && names[args[k - 2]].GetValue(args[k - 1], p).Ok?
    ensures FillPairs(names, args, k, p).argMap ==
              f.argMap[names[args[k - 2]] := names[args[k - 2]].GetValue(args[k - 1], p).value]
  {
    f := FillPairs(names, args, k - 2, p);
  }

  /** Without an early stop the map has exactly the arguments named by the first k tokens. */
  lemma {:induction false} FillPairsKeys(names: map<string, AddArgument>, args: seq<string>, k: nat, p: ValueParsers)
    requires k <= |args| && k % 2 == 0
    requires FillPairs(names, args, k, p).failure.None?
    ensures forall i :: 0 <= i < k && i % 2 == 0 ==> args[i] in names
    ensures forall a :: a in FillPairs(names, args, k, p).argMap <==>
              exists i :: 0 <= i < k && i % 2 == 0 && args[i] in names && names[args[i]] == a
  {
    if k > 0 {
      var f := FillStep(names, args, k, p);
      FillPairsKeys(names, args, k - 2, p);
      var last := k - 2;
      forall a ensures a in FillPairs(names, args, k, p).argMap <==>
                         exists i :: 0 <= i < k && i % 2 == 0 && args[i] in names && names[args[i]] == a
      {
        if a in FillPairs(names, args, k, p).argMap && a != names[args[last]] {
          assert a in f.argMap;
        }
      }
    }
  }

  /** The names of the first k tokens lead to different arguments (no name is an alias of another). */
  predicate DistinctArguments(names: map<string, AddArgument>, args: seq<string>, k: nat)
    requires k <= |args|
  {
    forall i, j :: 0 <= i < j < k && i % 2 == 0 && j % 2 == 0 && args[i] in names && args[j] in names ==>
      names[args[i]] != names[args[j]]
  }

  /** Without an early stop and without aliases, the argument named at i holds the value parsed from its pair. */
  lemma {:induction false} FillPairsValueAt(names: map<string, AddArgument>, args: seq<string>, k: nat, p: ValueParsers, i: nat)
    requires k <= |args| && k % 2 == 0 && i < k && i % 2 == 0
    requires FillPairs(names, args, k, p).failure.None? && DistinctArguments(names, args, k)
    ensures args[i] in names && names[args[i]] in FillPairs(names, args, k, p).argMap
    ensures names[args[i]].GetValue(args[i + 1], p) == Ok(FillPairs(names, args, k, p).argMap[names[args[i]]])
  {
    var f := FillStep(names, args, k, p);
    if i != k - 2 {
      assert DistinctArguments(names, args, k - 2);
      FillPairsValueAt(names, args, k - 2, p, i);
      assert names[args[i]] != names[args[k - 2]] by {
        FillPairsKeys(names, args, k - 2, p);
      }
    }
  }

  /** Without an early stop and without aliases, each argument holds the value parsed from its pair. */
  lemma FillPairsValues(names: map<string, AddArgument>, args: seq<string>, k: nat, p: ValueParsers)
    requires k <= |args| && k % 2 == 0
    requires FillPairs(names, args, k, p).failure.None? && DistinctArguments(names, args, k)
    ensures forall i :: 0 <= i < k && i % 2 == 0 ==>
              args[i] in names && names[args[i]] in FillPairs(names, args, k, p).argMap
              && names[args[i]].GetValue(args[i + 1], p) == Ok(FillPairs(names, args, k, p).argMap[names[args[i]]])
  {
    forall i | 0 <= i < k && i % 2 == 0
      ensures args[i] in names && names[args[i]] in FillPairs(names, args, k, p).argMap
      ensures names[args[i]].GetValue(args[i + 1], p) == Ok(FillPairs(names, args, k, p).argMap[names[args[i]]])
    {
      FillPairsValueAt(names, args, k, p, i);
    }
  }

  // ------------------------------------------------ the built module

  /** The five values handed to the module builder; None for an argument that was not given (null). */
  datatype ModuleFields = ModuleFields(
    code: Option<Code>, year: Option<int>, semester: Option<Semester>, credit: Option<nat>, grade: Option<Grade>)
  {
    /** The field an argument fills, as a parsed value. */
    function Field(a: AddArgument): Option<Value>
    {
      match a
      case CODE => if code.Some? then Some(CodeValue(code.value)) else None
      case YEAR => if year.Some? then Some(YearValue(year.value)) else None
      case SEMESTER => if semester.Some? then Some(SemesterValue(semester.value)) else None
      case CREDIT => if credit.Some? then Some(CreditValue(credit.value)) else None
      case GRADE => if grade.Some? then Some(GradeValue(grade.value)) else None
    }
  }

  /** `getModuleBuiltWithArgMap` up to the builder: each field is read back from the argument map. */
  function FieldsOf(argMap: map<AddArgument, Value>): (r: ModuleFields)
    requires WellKinded(argMap)
    ensures forall a: AddArgument :: r.Field(a) == (if a in argMap then Some(argMap[a]) else None)
  {
    var code := if CODE in argMap then Some(argMap[CODE].code) else None;
    var year := if YEAR in argMap then Some(argMap[YEAR].year) else None;
    var semester := if SEMESTER in argMap then Some(argMap[SEMESTER].semester) else None;
    var credit := if CREDIT in argMap then Some(argMap[CREDIT].credit) else None;
    var grade := if GRADE in argMap then Some(argMap[GRADE].grade) else None;
    ModuleFields(code, year, semester, credit, grade)
  }

  /**
   * `parse` on the tokens: the checks in order, then the values, then the
   * command around the built module. The builder (`ModuleBuilder`) is not
   * part of this model: `build` stands for it.
   */
  function ParseTokens(names: map<string, AddArgument>, args: seq<string>, p: ValueParsers, build: ModuleFields -> Module)
    : Result<AddModuleCommand, ParseFailure>
  {
    match Validate(names, args)
    case Fail(e) => Err(e)
    case Pass =>
      var f := FillPairs(names, args, |args|, p);
      if f.failure.Some? then Err(f.failure.value)
      else Ok(AddModuleCommand(build(FieldsOf(f.argMap))))
  }

  /**
   * What an accepted token list yields: 8 or 10 tokens in name-value pairs
   * with known, unrepeated names, and a module built from fields that are
   * given exactly for the named arguments, each (when no name is an alias
   * of another) holding the value parsed from its pair.
   */
  lemma ParseTokensAccepted(names: map<string, AddArgument>, args: seq<string>, p: ValueParsers, build: ModuleFields -> Module)
    requires ParseTokens(names, args, p, build).Ok?
    ensures ArgsWithBounds(args) && ArgsAreNameValuePair(args) && ValidateName(names, args)
    ensures FillPairs(names, args, |args|, p).failure.None?
    ensures var fields := FieldsOf(FillPairs(names, args, |args|, p).argMap);
              ParseTokens(names, args, p, build).value.toAdd == build(fields)
              && (forall a: AddArgument :: fields.Field(a).Some? <==>
                    exists i :: 0 <= i < |args| && i % 2 == 0 && args[i] in names && names[args[i]] == a)
              && (DistinctArguments(names, args, |args|) ==>
                    forall i :: 0 <= i && i + 1 < |args| && i % 2 == 0 ==>
                      args[i] in names && fields.Field(names[args[i]]).Some?
                      && names[args[i]].GetValue(args[i + 1], p) == Ok(fields.Field(names[args[i]]).value))
  {
    FillPairsKeys(names, args, |args|, p);
    if DistinctArguments(names, args, |args|) {
      FillPairsValues(names, args, |args|, p);
    }
  }

  /** A value refused by its parser makes `parse` fail with a value parser's message. */
  lemma ParseTokensValueRefused(names: map<string, AddArgument>, args: seq<string>, p: ValueParsers, build: ModuleFields -> Module, i: nat)
    requires Validate(names, args) == Pass && i < |args| && i % 2 == 0
    requires p.Fails(names[args[i]], args[i + 1])
    ensures ParseTokens(names, args, p, build).Err? && ParseTokens(names, args, p, build).error.InvalidValue?
  {
    var k := i + 2;
    assert FillPairs(names, args, k, p).failure.Some?;
    FillPairsStops(names, args, k, |args|, p);
    FillPairsRefusals(names, args, |args|, p);
  }

  // ------------------------------------------------ the parser object

  class AddModuleCommandParser {
    /** `NAME_TO_ARGUMENT_MAP`, filled once by the static block. */
    const nameToArgumentMap: map<string, AddArgument>
    /** The values parsed so far, by argument. */
    var argMap: map<AddArgument, Value>

    constructor()
      ensures nameToArgumentMap == NameToArgumentMap() && argMap == map[]
    {
      var table := BuildNameToArgumentMap();
      nameToArgumentMap := table;
      argMap := map[];
    }

    /**
     * `parseValues`: a fresh map, then one entry per pair, stepping two
     * tokens at a time; a name outside the table or a refused value ends
     * the loop.
     */
    method ParseValues(args: seq<string>, p: ValueParsers) returns (r: Outcome<ParseFailure>)
      modifies this
      requires |args| % 2 == 0
      ensures argMap == FillPairs(nameToArgumentMap, args, |args|, p).argMap
      ensures r == (if FillPairs(nameToArgumentMap, args, |args|, p).failure.Some?
                    then Fail(FillPairs(nameToArgumentMap, args, |args|, p).failure.value) else Pass)
    {
      r := Pass;
      argMap := map[];
      var index := 0;
      while index < |args|
        invariant 0 <= index <= |args| && index % 2 == 0
        invariant FillPairs(nameToArgumentMap, args, index, p) == Filled(argMap, None)
      {
        var nameInString := args[index];
        var valueInString := args[index + 1];
        FillPairsNext(nameToArgumentMap, args, index, p);
        if nameInString !in nameToArgumentMap {
          FillPairsStops(nameToArgumentMap, args, index + 2, |args|, p);
          return Fail(NullPointer);
        }
        var name := nameToArgumentMap[nameInString];
        var value := name.GetValue(valueInString, p);
        if value.Err? {
          FillPairsStops(nameToArgumentMap, args, index + 2, |args|, p);
          return Fail(InvalidValue(value.error));
        }
        argMap := argMap[name := value.value];
        index := index + 2;
      }
    }

    /**
     * `parse`: None stands for a null string; the tokenizer of the parser
     * utilities is not part of this model: `tokenize` stands for it.
     */
    method Parse(input: Option<string>, tokenize: string -> seq<string>, p: ValueParsers, build: ModuleFields -> Module)
      returns (r: Result<AddModuleCommand, ParseFailure>)
      modifies this
      ensures input.None? ==> r == Err(NullPointer) && argMap == old(argMap)
      ensures input.Some? ==> r == ParseTokens(nameToArgumentMap, tokenize(input.value), p, build)
      ensures input.Some? && Validate(nameToArgumentMap, tokenize(input.value)) == Pass ==>
                argMap == FillPairs(nameToArgumentMap, tokenize(input.value), |tokenize(input.value)|, p).argMap
      ensures input.Some? && Validate(nameToArgumentMap, tokenize(input.value)).Fail? ==> argMap == old(argMap)
    {
      if input.None? {
        return Err(NullPointer);
      }
      var args := tokenize(input.value);
      var checked := Validate(nameToArgumentMap, args);
      if checked.Fail? {
        return Err(checked.error);
      }
      var parsed := ParseValues(args, p);
      if parsed.Fail? {
        return Err(parsed.error);
      }
      var toAdd := build(FieldsOf(argMap));
      return Ok(AddModuleCommand(toAdd));
    }
  }

  // ------------------------------------------------ the scenarios of the parser tests

  /** A value in the place of a name, a name in the place of a value, and "-c -c" are refused. */
  lemma NotNameValuePairRefused(c: string, y: string, s: string, v: string, p: ValueParsers, build: ModuleFields -> Module)
    requires !IsName(c) && !IsName(y) && !IsName(s) && !IsName(v)
    ensures ParseTokens(NameToArgumentMap(), ["-m", c, "-y", y, "-s", s, "-c", "-c"], p, build) == Err(InvalidFormat)
    ensures ParseTokens(NameToArgumentMap(), ["-m", c, "-y", y, "-s", s, v, v], p, build) == Err(InvalidFormat)
    ensures ParseTokens(NameToArgumentMap(), ["-m", c, "-y", y, "-s", s, v, "-c"], p, build) == Err(InvalidFormat)
  {
    var a1 := ["-m", c, "-y", y, "-s", s, "-c", "-c"];
    assert IsName(a1[7]);
    var a2 := ["-m", c, "-y", y, "-s", s, v, v];
    assert !IsName(a2[6]);
    var a3 := ["-m", c, "-y", y, "-s", s, v, "-c"];
    assert !IsName(a3[6]);
  }

  /** A name outside the table is refused. */
  lemma IllegalNameRefused(c: string, y: string, s: string, cr: string, p: ValueParsers, build: ModuleFields -> Module)
    requires !IsName(c) && !IsName(y) && !IsName(s) && !IsName(cr)
    ensures ParseTokens(NameToArgumentMap(), ["-m", c, "-y", y, "-s", s, "-c", cr, "-random", "random"], p, build) == Err(InvalidFormat)
  {
    var args := ["-m", c, "-y", y, "-s", s, "-c", cr, "-random", "random"];
    NotInNameTable("-random");
    assert !NamesKnown(NameToArgumentMap(), args) by { assert args[8] == "-random"; }
  }

  /** A name given twice is refused. */
  lemma RepeatedNameRefused(c: string, y: string, s: string, cr: string, p: ValueParsers, build: ModuleFields -> Module)
    requires !IsName(c) && !IsName(y) && !IsName(s) && !IsName(cr)
    ensures ParseTokens(NameToArgumentMap(), ["-m", c, "-y", y, "-s", s, "-c", cr, "-m", c], p, build) == Err(InvalidFormat)
  {
    var args := ["-m", c, "-y", y, "-s", s, "-c", cr, "-m", c];
    assert args[0] == args[8];
  }
}
