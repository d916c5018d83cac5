/**
 * The captured-exception record (src/PythonException.cpp). The record has no setters:
 * it is a value, built either by the default constructor (the null record) or by the
 * three-argument constructor, and read through const accessors.
 */
module Exceptions {

  datatype PythonException =
    | NullException
    | Captured(typeName: string, messageText: string, traceText: string)
  {
    /** isNull(): true exactly for the default-constructed record. */
    predicate IsNull() { NullException? }

    /** type(): the exception type's name; empty in the null record. */
    function Type(): string { if Captured? then typeName else "" }

    /** message(): str() of the exception value; empty in the null record. */
    function Message(): string { if Captured? then messageText else "" }

    /** trace(): the formatted traceback; empty in the null record. */
    function Trace(): string { if Captured? then traceText else "" }
  }

  /** The default constructor. */
  function DefaultException(): (e: PythonException)
    ensures e.IsNull()
    ensures e.Type() == "" && e.Message() == "" && e.Trace() == ""
  {
    NullException
  }

  /** The three-argument constructor: the accessors give back exactly its arguments. */
  function MakeException(t: string, message: string, trace: string): (e: PythonException)
    ensures !e.IsNull()
    ensures e.Type() == t && e.Message() == message && e.Trace() == trace
  {
    Captured(t, message, trace)
  }

  /** A record is fully determined by what its accessors return. */
  lemma AccessorsDetermineRecord(e: PythonException, f: PythonException)
    requires e.IsNull() == f.IsNull()
    requires e.Type() == f.Type() && e.Message() == f.Message() && e.Trace() == f.Trace()
    ensures e == f
  {
  }

  /** Every non-null record is what the three-argument constructor builds from its accessors. */
  lemma ConstructorInvertsAccessors(e: PythonException)
    requires !e.IsNull()
    ensures MakeException(e.Type(), e.Message(), e.Trace()) == e
  {
  }
}
