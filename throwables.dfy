/**
 * The shapes shared by every exception the library builds or inspects.
 *
 * An exception value records what its Java fields hold: a code, an argument array,
 * debug information, an optional root cause and a severity. Which class a code or an
 * exception belongs to matters for the `instanceof` tests of the wrapping constructors,
 * so every code and every exception of the library carries the family it was declared in.
 */
module Throwables {
  import opened Wrappers

  /** The class a code or an exception belongs to: one of the XmlDocument exception classes, or another subclass. */
  datatype Family = XmlDocumentFamily | OtherFamily

  /** An NfbCheckedException.Code: its name, its optional mapped code, its message template and its severity. */
  datatype CheckedCode = CheckedCode(family: Family, name: string, mapped: Option<CheckedCode>, message: string, severity: int)

  /** An NfbRuntimeException.Code: like a checked code, without a severity. */
  datatype RuntimeCode = RuntimeCode(family: Family, name: string, mapped: Option<RuntimeCode>, message: string)

  /** A Java object passed as a message argument. */
  datatype Obj =
    | NullObj                  // the null reference
    | Str(s: string)           // a java.lang.String (serializable)
    | Exc(t: Throwable)        // a throwable (serializable)
    | Serial(desc: string)     // any other serializable object
    | Plain(toStr: string)     // an object that is not serializable; `toStr` is its toString()

  /** The throwables that reach the library's constructors and catch clauses. */
  datatype Throwable =
    | Checked(family: Family, code: CheckedCode, args: seq<Obj>, debug: string, rootCause: Option<Throwable>, severity: int)
    | Runtime(family: Family, runtimeCode: RuntimeCode, args: seq<Obj>, debug: string, rootCause: Option<Throwable>, severity: int)
    | JavaRuntime(className: string)   // a RuntimeException outside the library, such as a NullPointerException
    | JavaChecked(className: string)   // a checked exception outside the library, such as an IOException
  {
    /** `instanceof RuntimeException` */
    predicate IsRuntimeException()
    {
      Runtime? || JavaRuntime?
    }
  }

  /** What a Java call gives: its value, or the throwable it ends with. */
  datatype Outcome<T> = Ok(value: T) | Fail(error: Throwable)

  const NULL_POINTER: Throwable := JavaRuntime("java.lang.NullPointerException")
  const CLASS_CAST: Throwable := JavaRuntime("java.lang.ClassCastException")

  /** `instanceof Serializable`: null is an instance of nothing. */
  predicate IsSerializable(o: Obj)
  {
    o.Str? || o.Exc? || o.Serial?
  }
}
