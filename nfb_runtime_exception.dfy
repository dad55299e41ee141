/**
 * NfbRuntimeException: the base of the library's unchecked exceptions, its code-based
 * constructor, its severity name, and the registry of codes shared by all its subclasses.
 */
module NfbRuntimeException {
  import opened Wrappers
  import opened Throwables
  import Severity

  /** One argument as the constructor stores it: null stays null, a non-serializable object becomes its toString(). */
  function NormaliseArg(arg: Obj): Obj
  {
    if arg.Plain? then Str(arg.toStr) else arg
  }

  /** The stored argument array: a null array becomes empty, otherwise each element is normalised in place. */
  function NormaliseArgs(args: Option<seq<Obj>>): seq<Obj>
  {
    match args
    case None => []
    case Some(a) => seq(|a|, i requires 0 <= i < |a| => NormaliseArg(a[i]))
  }

  /**
   * What the stored array promises: same length, nulls exactly where the caller had nulls,
   * every other element serializable, serializable arguments kept as they are; and storing
   * an already stored array again changes nothing.
   */
  lemma NormaliseArgsProperties(args: seq<Obj>)
    ensures |NormaliseArgs(Some(args))| == |args|
    ensures forall i :: 0 <= i < |args| ==> (NormaliseArgs(Some(args))[i] == NullObj <==> args[i] == NullObj)
    ensures forall i :: 0 <= i < |args| && args[i] != NullObj ==> IsSerializable(NormaliseArgs(Some(args))[i])
    ensures forall i :: 0 <= i < |args| && IsSerializable(args[i]) ==> NormaliseArgs(Some(args))[i] == args[i]
    ensures NormaliseArgs(Some(NormaliseArgs(Some(args)))) == NormaliseArgs(Some(args))
  {
  }

  /** The copying loop of the constructor, over an array of the same length as the input. */
  method FillArgs(args: Option<seq<Obj>>) returns (r: seq<Obj>)
    ensures r == NormaliseArgs(args)
  {
    if args.None? {
      return [];
    }
    var a := args.value;
    var stored := new Obj[|a|](_ => NullObj);
    var i := 0;
    while i < |a|
      invariant 0 <= i <= |a|
      invariant forall j :: 0 <= j < i ==> stored[j] == NormaliseArg(a[j])
      invariant forall j :: i <= j < |a| ==> stored[j] == NullObj
    {
      var arg := a[i];
      if arg != NullObj {
        if IsSerializable(arg) {
          stored[i] := arg;
        } else {
          stored[i] := Str(arg.toStr);
        }
      }
      i := i + 1;
    }
    r := stored[..];
  }

  /** The code-based constructor: the severity is always FATAL. */
  function Construct(family: Family, code: RuntimeCode, args: Option<seq<Obj>>, debug: string, rootCause: Option<Throwable>): (e: Throwable)
    ensures e.Runtime? && e.family == family && e.runtimeCode == code
    ensures e.debug == debug && e.rootCause == rootCause
    ensures e.severity == Severity.FATAL
    ensures e.args == NormaliseArgs(args)
  {
    Runtime(family, code, NormaliseArgs(args), debug, rootCause, Severity.FATAL)
  }

  /** getCodeName */
  function CodeName(e: Throwable): string
    requires e.Runtime?
  {
    e.runtimeCode.name
  }

  /** getSeverityAsString: the full name of a level, "ERROR" for anything else. */
  function SeverityAsString(severity: int): string
  {
    if severity == Severity.FATAL then "FATAL"
    else if severity == Severity.ERROR then "ERROR"
    else if severity == Severity.WARNING then "WARNING"
    else if severity == Severity.INFORMATIONAL then "INFO"
    else if severity == Severity.SUCCESS then "SUCCESS"
    else if severity == Severity.DEBUG then "DEBUG"
    else "ERROR"
  }

  /** The long severity names start with the one-letter tag of the same level. */
  lemma SeverityNameAgreesWithTag(severity: int)
    ensures |SeverityAsString(severity)| > 0
    ensures [SeverityAsString(severity)[0]] == Severity.AsString(severity)
    ensures Severity.AsInt(SeverityAsString(severity)) == (if Severity.IsLevel(severity) then severity else Severity.ERROR)
  {
  }

  /** The six level names are pairwise different, and the default coincides with ERROR's name. */
  lemma SeverityNamesDistinct(a: int, b: int)
    requires Severity.IsLevel(a) && Severity.IsLevel(b) && a != b
    ensures SeverityAsString(a) != SeverityAsString(b)
    ensures SeverityAsString(0) == SeverityAsString(Severity.ERROR)
  {
  }

  /** The CODE_MAP registry: code names to codes, shared by every NfbRuntimeException subclass. */
  class CodeRegistry {
    var codes: map<string, RuntimeCode>

    /** The registry as a freshly loaded class leaves it: empty. */
    constructor ()
      ensures codes == map[]
    {
      codes := map[];
    }

    /** getCode: the code registered under a name, if any. */
    function GetCode(codeName: string): (r: Option<RuntimeCode>)
      reads this
      ensures r.Some? <==> codeName in codes
      ensures r.Some? ==> r.value == codes[codeName]
    {
      if codeName in codes then Some(codes[codeName]) else None
    }

    /** registerCode: the first code registered under a name stays; a later one under the same name is ignored. */
    method RegisterCode(code: RuntimeCode)
      modifies this
      ensures codes == Registered(old(codes), code)
    {
      var codeName := code.name;
      if codeName in codes {
      } else {
        codes := codes[codeName := code];
      }
    }
  }

  /** The registry after one registration. */
  function Registered(codes: map<string, RuntimeCode>, code: RuntimeCode): map<string, RuntimeCode>
  {
    if code.name in codes then codes else codes[code.name := code]
  }

  /** After a registration the name is bound, to the first code ever registered under it; other names are untouched. */
  lemma RegisterFirstWins(codes: map<string, RuntimeCode>, code: RuntimeCode, other: string)
    ensures code.name in Registered(codes, code)
    ensures code.name in codes ==> Registered(codes, code)[code.name] == codes[code.name]
    ensures code.name !in codes ==> Registered(codes, code)[code.name] == code
    ensures other != code.name ==> (other in Registered(codes, code) <==> other in codes)
    ensures other != code.name && other in codes ==> Registered(codes, code)[other] == codes[other]
  {
  }

  /** Registering the same code again changes nothing, so registration is idempotent. */
  lemma RegisterIdempotent(codes: map<string, RuntimeCode>, code: RuntimeCode)
    ensures Registered(Registered(codes, code), code) == Registered(codes, code)
  {
  }
}
