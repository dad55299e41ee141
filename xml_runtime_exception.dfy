/**
 * XmlDocumentRuntimeException: the unchecked exception of the XmlDocument package, its one code,
 * and its constructors. Every construction first registers GENERAL_FATAL_ERROR in the shared
 * code registry (the instance initializer runs before the constructor body), so the constructors
 * are methods that update the registry.
 */
module XmlDocumentRuntimeException {
  import opened Wrappers
  import opened Throwables
  import NfbRuntimeException
  import Severity

  const GENERAL_FATAL_ERROR: RuntimeCode := RuntimeCode(XmlDocumentFamily, "XmlDocument:GeneralFatalError", None, "A general fatal error has occurrred: {0}")

  /** getDefaultCode */
  const DEFAULT_CODE: RuntimeCode := GENERAL_FATAL_ERROR

  /** What a wrapping constructor produces: the new exception, or the exception its body throws instead. */
  datatype Construction = Built(exception: Throwable) | Threw(thrown: Throwable)

  /** The five code-based constructors: the NfbRuntimeException constructor with a null or a given root cause. */
  function WithCode(code: RuntimeCode, args: Option<seq<Obj>>, debug: string, rootCause: Option<Throwable>): Throwable
  {
    NfbRuntimeException.Construct(XmlDocumentFamily, code, args, debug, rootCause)
  }

  /**
   * (debugInformation, rootCause): any RuntimeException is cast to NfbRuntimeException, which throws
   * ClassCastException for one that is not; a code of this class mapping to a code of this class is
   * adopted with the cause's arguments; otherwise GENERAL_FATAL_ERROR with the cause as argument.
   * The severity is never assigned and stays 0.
   */
  function Wrap(debug: string, rootCause: Option<Throwable>): Construction
  {
    if rootCause.Some? && rootCause.value.IsRuntimeException() && !rootCause.value.Runtime? then
      Threw(CLASS_CAST)
    else if rootCause.Some? && rootCause.value.Runtime? && rootCause.value.runtimeCode.family == XmlDocumentFamily
            && rootCause.value.runtimeCode.mapped.Some? && rootCause.value.runtimeCode.mapped.value.family == XmlDocumentFamily then
      Built(Runtime(XmlDocumentFamily, rootCause.value.runtimeCode.mapped.value, rootCause.value.args, debug, rootCause, 0))
    else
      Built(Runtime(XmlDocumentFamily, GENERAL_FATAL_ERROR, [match rootCause case None => NullObj case Some(t) => Exc(t)], debug, rootCause, 0))
  }

  /** (arg, debugInformation, rootCause): the mapped code of any class or GENERAL_FATAL_ERROR, with the one argument given; severity 0. */
  function WrapWithArg(arg: Obj, debug: string, rootCause: Option<Throwable>): Throwable
  {
    var code :=
      if rootCause.Some? && rootCause.value.Runtime? && rootCause.value.runtimeCode.family == XmlDocumentFamily
         && rootCause.value.runtimeCode.mapped.Some?
      then rootCause.value.runtimeCode.mapped.value
      else GENERAL_FATAL_ERROR;
    var args := if arg == NullObj then [] else [NfbRuntimeException.NormaliseArg(arg)];
    Runtime(XmlDocumentFamily, code, args, debug, rootCause, 0)
  }

  /** A code-based constructor: registers GENERAL_FATAL_ERROR, then builds a FATAL exception. */
  method NewWithCode(registry: NfbRuntimeException.CodeRegistry, code: RuntimeCode, args: Option<seq<Obj>>, debug: string, rootCause: Option<Throwable>)
    returns (e: Throwable)
    modifies registry
    ensures registry.codes == NfbRuntimeException.Registered(old(registry.codes), GENERAL_FATAL_ERROR)
    ensures e == WithCode(code, args, debug, rootCause)
  {
    registry.RegisterCode(GENERAL_FATAL_ERROR);
    var stored := NfbRuntimeException.FillArgs(args);
    e := Runtime(XmlDocumentFamily, code, stored, debug, rootCause, Severity.FATAL);
  }

  /** The (debugInformation, rootCause) constructor: registers GENERAL_FATAL_ERROR even when the cast then fails. */
  method NewWrapping(registry: NfbRuntimeException.CodeRegistry, debug: string, rootCause: Option<Throwable>)
    returns (c: Construction)
    modifies registry
    ensures registry.codes == NfbRuntimeException.Registered(old(registry.codes), GENERAL_FATAL_ERROR)
    ensures c == Wrap(debug, rootCause)
  {
    registry.RegisterCode(GENERAL_FATAL_ERROR);
    c := Wrap(debug, rootCause);
  }

  /** The (arg, debugInformation, rootCause) constructor. */
  method NewWrappingArg(registry: NfbRuntimeException.CodeRegistry, arg: Obj, debug: string, rootCause: Option<Throwable>)
    returns (e: Throwable)
    modifies registry
    ensures registry.codes == NfbRuntimeException.Registered(old(registry.codes), GENERAL_FATAL_ERROR)
    ensures e == WrapWithArg(arg, debug, rootCause)
  {
    registry.RegisterCode(GENERAL_FATAL_ERROR);
    e := WrapWithArg(arg, debug, rootCause);
  }

  /** Code-based construction always reports FATAL; wrapping never assigns a severity, which then reads as "ERROR". */
  lemma SeverityOfConstructions(code: RuntimeCode, args: Option<seq<Obj>>, debug: string, rootCause: Option<Throwable>, arg: Obj)
    ensures WithCode(code, args, debug, rootCause).severity == Severity.FATAL
    ensures NfbRuntimeException.SeverityAsString(WithCode(code, args, debug, rootCause).severity) == "FATAL"
    ensures Wrap(debug, rootCause).Built? ==> Wrap(debug, rootCause).exception.severity == 0
    ensures NfbRuntimeException.SeverityAsString(WrapWithArg(arg, debug, rootCause).severity) == "ERROR"
  {
  }

  /** Wrapping a RuntimeException from outside the library fails with ClassCastException; a checked cause or null gives GENERAL_FATAL_ERROR. */
  lemma WrapOutcomes(debug: string, cause: Throwable)
    ensures cause.JavaRuntime? ==> Wrap(debug, Some(cause)) == Threw(CLASS_CAST)
    ensures cause.Checked? || cause.JavaChecked? ==>
      Wrap(debug, Some(cause)).Built? && Wrap(debug, Some(cause)).exception.runtimeCode == GENERAL_FATAL_ERROR
      && Wrap(debug, Some(cause)).exception.args == [Exc(cause)]
    ensures Wrap(debug, None).Built? && Wrap(debug, None).exception.args == [NullObj]
    ensures cause.Runtime? && cause.runtimeCode == GENERAL_FATAL_ERROR ==>
      Wrap(debug, Some(cause)).Built? && Wrap(debug, Some(cause)).exception.runtimeCode == GENERAL_FATAL_ERROR
  {
  }

  /** After any construction the registry binds the general code's name, to GENERAL_FATAL_ERROR unless another code took the name first. */
  lemma GeneralFatalErrorRegistered(codes: map<string, RuntimeCode>)
    ensures GENERAL_FATAL_ERROR.name in NfbRuntimeException.Registered(codes, GENERAL_FATAL_ERROR)
    ensures GENERAL_FATAL_ERROR.name !in codes ==>
      NfbRuntimeException.Registered(codes, GENERAL_FATAL_ERROR)[GENERAL_FATAL_ERROR.name] == GENERAL_FATAL_ERROR
  {
  }
}
