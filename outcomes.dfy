/**
 * What an XmlDocument operation leaves behind: the document after the call and the call's
 * answer or exception, and the three ways the facade builds the exceptions it throws.
 */
module Outcomes {
  import opened Wrappers
  import opened Throwables
  import opened Dom
  import X = XmlDocumentCheckedException

  /** The document after a call, and the value it returned or the exception it threw. */
  datatype Effect<T> = Effect(st: State, out: Outcome<T>)

  /** getClass().getName() of an XmlDocument. */
  const CLASS_NAME: string := "com.nfbsoftware.xml.XmlDocument"

  /** The debug string of a method: the class name followed by the method's signature. */
  function Debug(signature: string): string
  {
    CLASS_NAME + signature
  }

  /** new XmlDocumentCheckedException(code, debugString) */
  function Raise(code: CheckedCode, debug: string): Throwable
  {
    X.WithCode(code, [], debug, None, None)
  }

  /** new XmlDocumentCheckedException(Codes.GENERAL_ERROR, e, debugString, e) */
  function GeneralError(debug: string, e: Throwable): Throwable
  {
    X.WithCode(X.GENERAL_ERROR, [Exc(e)], debug, Some(e), None)
  }

  /** new XmlDocumentCheckedException(debugString, e) */
  function Rewrap(debug: string, e: Throwable): Throwable
  {
    X.Wrap(debug, Some(e))
  }

  /** `catch (XmlDocumentCheckedException e)` */
  predicate IsXmlChecked(e: Throwable)
  {
    e.Checked? && e.family == XmlDocumentFamily
  }

  /** `catch (XmlDocumentCheckedException e) { throw e; } catch (Exception e)`, the second wrapping as GENERAL_ERROR. */
  function Rethrow(debug: string, e: Throwable): Throwable
  {
    if IsXmlChecked(e) then e else GeneralError(debug, e)
  }

  /** `catch (XmlDocumentCheckedException e)` alone, wrapping it as GENERAL_ERROR and letting anything else through. */
  function WrapChecked(debug: string, e: Throwable): Throwable
  {
    if IsXmlChecked(e) then GeneralError(debug, e) else e
  }

  /** `catch (XmlDocumentCheckedException e) { throw new XmlDocumentCheckedException(debugString, e); }`, letting anything else through. */
  function RewrapChecked(debug: string, e: Throwable): Throwable
  {
    if IsXmlChecked(e) then Rewrap(debug, e) else e
  }

  /** `catch (XmlDocumentCheckedException e) { throw e; } catch (Exception e)`, the second re-wrapped as (debugString, e). */
  function RethrowWrapped(debug: string, e: Throwable): Throwable
  {
    if IsXmlChecked(e) then e else Rewrap(debug, e)
  }

  /** The exceptions the facade raises from the code table are all of its own class. */
  lemma RaisedAreXmlChecked(code: CheckedCode, debug: string, e: Throwable)
    requires code in X.CODES
    ensures IsXmlChecked(Raise(code, debug)) && Raise(code, debug).code == code
    ensures IsXmlChecked(GeneralError(debug, e)) && GeneralError(debug, e).code == X.GENERAL_ERROR
    ensures GeneralError(debug, e).rootCause == Some(e)
  {
    X.CodeTable();
  }

  /** Re-wrapping one of the facade's own exceptions, or any other exception, always gives GENERAL_ERROR with the cause kept. */
  lemma RewrapIsGeneralError(debug: string, e: Throwable)
    requires !e.Checked? || e.code in X.CODES
    ensures Rewrap(debug, e).code == X.GENERAL_ERROR && Rewrap(debug, e).rootCause == Some(e)
    ensures Rewrap(debug, e).args == [Exc(e)]
  {
    X.WrapUnmappedIsGeneralError(debug, e, 0);
  }
}
