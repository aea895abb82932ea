/**
 * The `add` command: refuse a module whose code, year and semester are
 * already in the transcript; otherwise add it and commit the transcript.
 */
module AddCommand {
  import opened Wrappers
  import opened ModuleData
  import opened ModuleList
  import opened TranscriptModel
  import opened CommandText

  const CommandWord: string := "add"
  const MessageAddSuccess: string := "Added module: %1$s"
  const MessageModuleAlreadyExist: string := "Module already exist."

  /** `requireNonNull` failing: the one way the constructor refuses its argument. */
  datatype NullArgument = NullArgument

  /** What `equals` may be handed: this very object, or some other object. */
  datatype Operand =
    | SameObject
    | OtherAddCommand(command: AddModuleCommand)
    | DeleteCommand
    | OtherObject   // null, or an object of any other class

  /** The feedback the command returns on success, as written: the duplicate message. */
  function SuccessMessageAsWritten(shown: string): (r: string)
    ensures r == MessageModuleAlreadyExist
  {
    FormatLiteral(MessageModuleAlreadyExist, shown);
    Format(MessageModuleAlreadyExist, shown)
  }

  /** The feedback the command evidently means to return: the success template. */
  function SuccessMessage(shown: string): (r: string)
    ensures r == "Added module: " + shown
    ensures r != MessageModuleAlreadyExist
  {
    FormatTrailing("Added module: ", shown);
    assert MessageAddSuccess == "Added module: " + Specifier;
    var r := Format(MessageAddSuccess, shown);
    assert r[0] != MessageModuleAlreadyExist[0];
    r
  }

  /** As written the success text gives no way to tell a success from a refused duplicate. */
  lemma SuccessIndistinguishableAsWritten(shown: string)
    ensures SuccessMessageAsWritten(shown) == MessageModuleAlreadyExist
    ensures SuccessMessageAsWritten(shown) != SuccessMessage(shown)
  {
  }

  /** `new AddModuleCommand(toAdd)`: None stands for null. */
  function NewAddModuleCommand(toAdd: Option<Module>): (r: Result<AddModuleCommand, NullArgument>)
    ensures r.Ok? <==> toAdd.Some?
    ensures r.Ok? ==> r.value.toAdd == toAdd.value
  {
    match toAdd
    case None => Err(NullArgument)
    case Some(m) => Ok(AddModuleCommand(m))
  }

  datatype AddModuleCommand = AddModuleCommand(toAdd: Module)
  {
    /** `moduleToAddNotInTranscript`: fails exactly when a module has the identity of toAdd. */
    function ModuleToAddNotInTranscript(ms: seq<Module>): (r: Outcome<string>)
      ensures r.Fail? <==> exists k :: 0 <= k < |ms| && ms[k].IsSameModule(toAdd)
      ensures r.Fail? ==> r.error == MessageModuleAlreadyExist
    {
      if Contains(ms, toAdd) then Fail(MessageModuleAlreadyExist) else Pass
    }

    /**
     * `execute`: a duplicate is refused and nothing changes; otherwise the
     * transcript takes the module (and recomputes), and is committed once.
     * The feedback of a success is the text as written, the duplicate message.
     * The rendering of a module is not part of this model: `show` stands for it.
     */
    method Execute(model: ModelManager, show: Module -> string) returns (r: Result<string, string>)
      requires model.transcript.Valid()
      modifies model, model.transcript
      ensures model.transcript.Valid()
      ensures Contains(old(model.transcript.modules), toAdd) ==>
                r == Err(MessageModuleAlreadyExist) && unchanged(model, model.transcript)
      ensures !Contains(old(model.transcript.modules), toAdd) ==>
                r == Ok(SuccessMessageAsWritten(show(toAdd)))
                && model.transcript.UpdatedFrom(old(model.transcript.modules) + [toAdd], old(model.transcript.capGoal))
                && model.commits == old(model.commits) + 1
    {
      var check := ModuleToAddNotInTranscript(model.transcript.modules);
      if check.Fail? {
        return Err(check.error);
      }
      var added := model.transcript.AddModule(toAdd);
      assert added.Pass?;
      model.CommitTranscript();
      return Ok(SuccessMessageAsWritten(show(toAdd)));
    }

    /**
     * `equals` as written: the class test names the delete command, so only
     * this very object is equal, and a delete command makes the cast fail
     * (None stands for the `ClassCastException`).
     */
    function EqualsAsWritten(other: Operand): (r: Option<bool>)
      ensures r == Some(true) <==> other.SameObject?
      ensures r.None? <==> other.DeleteCommand?
    {
      match other
      case SameObject => Some(true)
      case DeleteCommand => None
      case _ => Some(false)
    }

    /** `equals` as evidently intended: the same object, or an add command for an equal module. */
    function Equals(other: Operand): (r: bool)
      ensures other.OtherAddCommand? ==> (r <==> other.command.toAdd == toAdd)
      ensures !other.SameObject? && !other.OtherAddCommand? ==> !r
    {
      match other
      case SameObject => true
      case OtherAddCommand(c) => c.toAdd == toAdd
      case _ => false
    }
  }

  /** As written, two distinct commands adding the same module are never equal. */
  lemma EqualsAsWrittenRejectsEqualCommand(c: AddModuleCommand)
    ensures c.EqualsAsWritten(OtherAddCommand(c)) == Some(false)
    ensures c.Equals(OtherAddCommand(c))
  {
  }

  /** The intended equality is reflexive and symmetric between add commands. */
  lemma EqualsSymmetric(a: AddModuleCommand, b: AddModuleCommand)
    ensures a.Equals(OtherAddCommand(a))
    ensures a.Equals(OtherAddCommand(b)) == b.Equals(OtherAddCommand(a))
    ensures a.Equals(OtherAddCommand(b)) <==> a == b
  {
  }
}
