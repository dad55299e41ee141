/**
 * XmlDocumentCheckedException: the checked exception every XmlDocument operation raises,
 * its table of eleven codes, its code-based constructors and the four constructors that wrap
 * a root cause.
 *
 * The code-based constructors all end in the five-argument constructor of NfbCheckedException;
 * NfbCheckedException.java is not part of this model, and that constructor is taken to record
 * its five arguments as given.
 */
module XmlDocumentCheckedException {
  import opened Wrappers
  import opened Throwables
  import NfbRuntimeException
  import Severity

  /** A code declared through the private Code constructor: it maps to nothing. */
  function Code(name: string, message: string, severity: int): CheckedCode
  {
    CheckedCode(XmlDocumentFamily, name, None, message, severity)
  }

  /** A code declared through the protected Code constructor, for subclasses that map onto a code of this class. */
  function MappedCode(name: string, mapped: CheckedCode, message: string, severity: int): CheckedCode
  {
    CheckedCode(XmlDocumentFamily, name, Some(mapped), message, severity)
  }

  /** The common beginning of the eleven code names. */
  const PREFIX: string := "XmlDocument:"

  const GENERAL_ERROR: CheckedCode := Code(PREFIX + "GeneralError", "A general error has occurred: {0}", Severity.ERROR)
  const INCOMPATIBLE_DOCUMENT_TYPE: CheckedCode := Code(PREFIX + "IncompatibleDocumentType", "The XmlDocument implementation, {0} is incompatible with {1}", Severity.WARNING)
  const DOCUMENT_LOAD_FAILED: CheckedCode := Code(PREFIX + "DocumentLoadFailed", "Failed to load the document: {0}", Severity.WARNING)
  const INVALID_ROOT_ELEMENT: CheckedCode := Code(PREFIX + "InvalidRootElement", "The root element of the document is not appropriate for this adapter type.", Severity.WARNING)
  const NULL_ROOT_ELEMENT: CheckedCode := Code(PREFIX + "NullRootElement", "The root element of the document is null.", Severity.WARNING)
  const CHILD_NOT_FOUND: CheckedCode := Code(PREFIX + "ChildNotFound", "Child not found, path: {0}", Severity.INFORMATIONAL)
  const CLONE_FAILED: CheckedCode := Code(PREFIX + "CloneFailed", "Could not clone the child node: {0}", Severity.INFORMATIONAL)
  const INVALID_NODE_NAME: CheckedCode := Code(PREFIX + "InvalidNodeName", "An invalid node name was found: {0}", Severity.WARNING)
  const ERROR_ON_CHILD_REMOVE: CheckedCode := Code(PREFIX + "ErrorOnChildRemove", "Error occured when trying to remove child: {0}", Severity.WARNING)
  const PARENT_NOT_FOUND: CheckedCode := Code(PREFIX + "ParentNotFound", "Parent node not found: {0}", Severity.WARNING)
  const INVALID_INDEX: CheckedCode := Code(PREFIX + "InvalidIndex", "Invalid index.", Severity.WARNING)

  /** The codes in the order the instance initializer registers them. */
  const CODES: seq<CheckedCode> := [GENERAL_ERROR, INCOMPATIBLE_DOCUMENT_TYPE, DOCUMENT_LOAD_FAILED,
    INVALID_ROOT_ELEMENT, NULL_ROOT_ELEMENT, CHILD_NOT_FOUND, CLONE_FAILED, INVALID_NODE_NAME,
    ERROR_ON_CHILD_REMOVE, PARENT_NOT_FOUND, INVALID_INDEX]

  /** getDefaultCode */
  const DEFAULT_CODE: CheckedCode := GENERAL_ERROR

  /**
   * The ten code-based constructors in one: a single argument is passed as a one-element array,
   * a missing root cause is null, and a missing severity is the code's own.
   */
  function WithCode(code: CheckedCode, args: seq<Obj>, debug: string, rootCause: Option<Throwable>, severity: Option<int>): Throwable
  {
    Checked(XmlDocumentFamily, code, args, debug, rootCause, severity.GetOr(code.severity))
  }

  /** The code a root cause maps to: its code must belong to this class and carry a mapped code, of this class when `strict`. */
  function MappedCodeOf(rootCause: Option<Throwable>, strict: bool): Option<CheckedCode>
  {
    if rootCause.Some? && rootCause.value.Checked? && rootCause.value.code.family == XmlDocumentFamily
       && rootCause.value.code.mapped.Some?
       && (!strict || rootCause.value.code.mapped.value.family == XmlDocumentFamily)
    then rootCause.value.code.mapped
    else None
  }

  /** The message argument standing for a root cause: the cause itself, or null. */
  function CauseArg(rootCause: Option<Throwable>): Obj
  {
    match rootCause
    case None => NullObj
    case Some(t) => Exc(t)
  }

  /** (debugInformation, rootCause): adopt the cause's mapped code and arguments, or else GENERAL_ERROR with the cause as argument. */
  function Wrap(debug: string, rootCause: Option<Throwable>): Throwable
  {
    var mapped := MappedCodeOf(rootCause, true);
    var code := mapped.GetOr(GENERAL_ERROR);
    var args := if mapped.Some? then rootCause.value.args else [CauseArg(rootCause)];
    Checked(XmlDocumentFamily, code, args, debug, rootCause, code.severity)
  }

  /** (debugInformation, rootCause, severity): as Wrap, accepting a mapped code of any class, with the given severity. */
  function WrapWithSeverity(debug: string, rootCause: Option<Throwable>, severity: int): Throwable
  {
    var mapped := MappedCodeOf(rootCause, false);
    var code := mapped.GetOr(GENERAL_ERROR);
    var args := if mapped.Some? then rootCause.value.args else [CauseArg(rootCause)];
    Checked(XmlDocumentFamily, code, args, debug, rootCause, severity)
  }

  /** (arg, debugInformation, rootCause): the mapped code or GENERAL_ERROR, with the one argument given. */
  function WrapWithArg(arg: Obj, debug: string, rootCause: Option<Throwable>): Throwable
  {
    var code := MappedCodeOf(rootCause, false).GetOr(GENERAL_ERROR);
    var args := if arg == NullObj then [] else [NfbRuntimeException.NormaliseArg(arg)];
    Checked(XmlDocumentFamily, code, args, debug, rootCause, code.severity)
  }

  /** (args, debugInformation, rootCause, severity): the mapped code or GENERAL_ERROR, with the arguments stored element by element. */
  function WrapWithArgs(args: Option<seq<Obj>>, debug: string, rootCause: Option<Throwable>, severity: int): Throwable
  {
    var code := MappedCodeOf(rootCause, false).GetOr(GENERAL_ERROR);
    Checked(XmlDocumentFamily, code, NfbRuntimeException.NormaliseArgs(args), debug, rootCause, severity)
  }

  /** Length and thirteenth character: enough to tell the eleven code names apart. */
  function Fingerprint(c: CheckedCode): (int, char)
  {
    (|c.name|, if |c.name| > 12 then c.name[12] else ' ')
  }

  /** No two codes of the table share a name. */
  lemma CodeNamesDistinct()
    ensures |CODES| == 11
    ensures forall i, j :: 0 <= i < j < |CODES| ==> CODES[i].name != CODES[j].name
  {
    var fps := [(24, 'G'), (36, 'I'), (30, 'D'), (30, 'I'), (27, 'N'), (25, 'C'), (23, 'C'), (27, 'I'), (30, 'E'), (26, 'P'), (24, 'I')];
    forall i | 0 <= i < |CODES|
      ensures Fingerprint(CODES[i]) == fps[i]
    {
    }
    forall i, j | 0 <= i < j < |CODES|
      ensures CODES[i].name != CODES[j].name
    {
      assert fps[i] != fps[j];
    }
  }

  /** The table: all codes in this class, none mapped, named "XmlDocument:...", with the documented severities. */
  lemma CodeTable()
    ensures forall c :: c in CODES ==> c.family == XmlDocumentFamily && c.mapped.None?
    ensures forall c :: c in CODES ==> |c.name| > |PREFIX| && PREFIX <= c.name
    ensures forall c :: c in CODES ==> (c.severity == Severity.ERROR <==> c == GENERAL_ERROR)
    ensures forall c :: c in CODES ==> (c.severity == Severity.INFORMATIONAL <==> c in {CHILD_NOT_FOUND, CLONE_FAILED})
    ensures forall c :: c in CODES ==> c.severity in {Severity.ERROR, Severity.WARNING, Severity.INFORMATIONAL}
    ensures DEFAULT_CODE == GENERAL_ERROR && Severity.IsFailure(GENERAL_ERROR.severity)
  {
    CodeFamilies();
    CodePrefixes();
    CodeErrorSeverity();
    CodeInformationalSeverity();
    CodeSeverityRange();
  }

  lemma CodeFamilies()
    ensures forall c :: c in CODES ==> c.family == XmlDocumentFamily && c.mapped.None?
  {
  }

  lemma CodePrefixes()
    ensures forall c :: c in CODES ==> |c.name| > |PREFIX| && PREFIX <= c.name
  {
  }

  lemma CodeErrorSeverity()
    ensures forall c :: c in CODES ==> (c.severity == Severity.ERROR <==> c == GENERAL_ERROR)
  {
  }

  lemma CodeInformationalSeverity()
    ensures forall c :: c in CODES ==> (c.severity == Severity.INFORMATIONAL <==> c in {CHILD_NOT_FOUND, CLONE_FAILED})
  {
  }

  lemma CodeSeverityRange()
    ensures forall c :: c in CODES ==> c.severity in {Severity.ERROR, Severity.WARNING, Severity.INFORMATIONAL}
    ensures DEFAULT_CODE == GENERAL_ERROR && Severity.IsFailure(GENERAL_ERROR.severity)
  {
  }

  /** Without an explicit severity an exception takes its code's severity; nothing else is altered. */
  lemma WithCodeDefaults(code: CheckedCode, args: seq<Obj>, debug: string, rootCause: Option<Throwable>, severity: Option<int>)
    ensures WithCode(code, args, debug, rootCause, severity).code == code
    ensures WithCode(code, args, debug, rootCause, severity).args == args
    ensures WithCode(code, args, debug, rootCause, severity).rootCause == rootCause
    ensures severity.None? ==> WithCode(code, args, debug, rootCause, severity).severity == code.severity
    ensures severity.Some? ==> WithCode(code, args, debug, rootCause, severity).severity == severity.value
  {
  }

  /**
   * Wrapping an exception whose code comes from the table, or any exception that is not an
   * NfbCheckedException, yields GENERAL_ERROR with the cause as its only argument and as its root
   * cause, in all four wrapping constructors: none of the eleven codes maps to another.
   */
  lemma WrapUnmappedIsGeneralError(debug: string, cause: Throwable, severity: int)
    requires !cause.Checked? || cause.code in CODES
    ensures Wrap(debug, Some(cause)).code == GENERAL_ERROR
    ensures Wrap(debug, Some(cause)).args == [Exc(cause)]
    ensures Wrap(debug, Some(cause)).rootCause == Some(cause)
    ensures Wrap(debug, Some(cause)).debug == debug
    ensures Wrap(debug, Some(cause)).severity == Severity.ERROR
    ensures WrapWithSeverity(debug, Some(cause), severity).code == GENERAL_ERROR
    ensures WrapWithSeverity(debug, Some(cause), severity).severity == severity
    ensures WrapWithArg(Exc(cause), debug, Some(cause)).code == GENERAL_ERROR
    ensures WrapWithArg(Exc(cause), debug, Some(cause)).args == [Exc(cause)]
    ensures WrapWithArgs(None, debug, Some(cause), severity).code == GENERAL_ERROR
    ensures WrapWithArgs(None, debug, Some(cause), severity).args == []
  {
    CodeTable();
  }

  /** A cause whose code of this class maps to a code of this class hands that code and its own arguments on. */
  lemma WrapFollowsMapping(debug: string, cause: Throwable, severity: int)
    requires cause.Checked? && cause.code.family == XmlDocumentFamily
    requires cause.code.mapped.Some? && cause.code.mapped.value.family == XmlDocumentFamily
    ensures Wrap(debug, Some(cause)).code == cause.code.mapped.value
    ensures Wrap(debug, Some(cause)).args == cause.args
    ensures Wrap(debug, Some(cause)).severity == cause.code.mapped.value.severity
    ensures WrapWithSeverity(debug, Some(cause), severity).code == cause.code.mapped.value
    ensures WrapWithSeverity(debug, Some(cause), severity).args == cause.args
    ensures WrapWithArg(NullObj, debug, Some(cause)).code == cause.code.mapped.value
    ensures WrapWithArg(NullObj, debug, Some(cause)).args == []
  {
  }

  /**
   * The one point where the wrapping constructors disagree: a mapped code of another class is
   * ignored by (debugInformation, rootCause) and adopted by the other three.
   */
  lemma WrapVariantsDisagreeOnForeignMapping(debug: string, cause: Throwable, severity: int, arg: Obj)
    requires cause.Checked? && cause.code.family == XmlDocumentFamily
    requires cause.code.mapped.Some? && cause.code.mapped.value.family == OtherFamily
    ensures Wrap(debug, Some(cause)).code == GENERAL_ERROR
    ensures WrapWithSeverity(debug, Some(cause), severity).code == cause.code.mapped.value
    ensures WrapWithArg(arg, debug, Some(cause)).code == cause.code.mapped.value
    ensures WrapWithArgs(None, debug, Some(cause), severity).code == cause.code.mapped.value
  {
  }

  /** The single-argument wrapper stores no argument for null, the argument itself if serializable, its toString() otherwise. */
  lemma WrapWithArgStoresOneArgument(arg: Obj, debug: string, rootCause: Option<Throwable>)
    ensures arg == NullObj ==> WrapWithArg(arg, debug, rootCause).args == []
    ensures IsSerializable(arg) ==> WrapWithArg(arg, debug, rootCause).args == [arg]
    ensures arg.Plain? ==> WrapWithArg(arg, debug, rootCause).args == [Str(arg.toStr)]
    ensures WrapWithArg(arg, debug, rootCause).rootCause == rootCause
  {
  }

  /** Wrapping a null root cause yields GENERAL_ERROR with a single null argument. */
  lemma WrapNullCause(debug: string)
    ensures Wrap(debug, None).code == GENERAL_ERROR && Wrap(debug, None).args == [NullObj]
    ensures Wrap(debug, None).rootCause.None?
  {
  }
}
