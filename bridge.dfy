/**
 * The runtime bridge (src/PythonBridge.cpp): the single exception slot, the interpreter's
 * error indicator, the three exception-handling modes and the two public entry points.
 *
 * The interpreter itself is not modelled: what each C-API call the bridge makes returns
 * is given by a `Runtime` value passed in, and a raised exception is a `PyError`.
 */
module Bridge {

  import opened Wrappers
  import opened Strings
  import opened Values
  import opened Converter
  import opened Exceptions

  datatype ExceptionHandlingMode = Store | Print | Ignore

  /**
   * A raised Python exception as PyErr_Fetch and PyErr_NormalizeException hand it over.
   * `typeName` is str() of the type's __name__ and `valueText` is str() of the value; each
   * is None when the object is missing or str() fails.
   */
  datatype PyError = PyError(typeName: Option<PyObject>, valueText: Option<PyObject>, traceback: Option<PyObject>)

  /**
   * The error PyInt_AsLong leaves for a long outside the C long range, as storeException
   * would fetch it: an OverflowError set by PyErr_SetString, so without a traceback.
   */
  const LongOverflowError: PyError :=
    PyError(Some(PyStr(AsciiBytes("OverflowError"))),
            Some(PyStr(AsciiBytes("Python int too large to convert to C long"))), None)

  /** The bytes of an ASCII text, as a C string literal holds them. */
  function AsciiBytes(text: string): seq<byte>
    requires forall i :: 0 <= i < |text| ==> text[i] < 128 as char
  {
    seq(|text|, i requires 0 <= i < |text| => text[i] as int)
  }

  /** The result of one interpreter call: an object, or an exception left in the indicator. */
  datatype Outcome = Returned(result: PyObject) | Raised(error: PyError)

  /** The answers of the embedded interpreter to the C-API calls the bridge makes. */
  datatype Runtime = Runtime(
    importModule: string -> Outcome,          // PyImport_Import
    getAttr: (PyObject, string) -> Outcome,   // PyObject_GetAttrString
    isCallable: PyObject -> bool,             // PyCallable_Check
    call: (PyObject, PyObject) -> Outcome,    // PyObject_Call(function, argument tuple)
    compile: (string, string) -> Outcome,     // Py_CompileString(code, filename)
    evalCode: (PyObject, PyObject) -> Outcome // PyEval_EvalCode(code, __main__ globals, locals)
  )

  /** How a call of a module's function ends. */
  datatype CallOutcome =
    | ImportFailed(importError: PyError)
    | NotCalled(lookupError: Option<PyError>) // attribute missing (the lookup raised) or not callable
    | CallFailed(callError: PyError)
    | CallReturned(value: PyObject)

  /** The bridge's observable state: the slot, the indicator and what PyErr_Print wrote. */
  datatype BridgeState = BridgeState(current: Option<PythonException>, indicator: Option<PyError>,
                                     printed: seq<PyError>)

  // ---------------------------------------------------------------------------------
  // Specification

  /** doCallFunction: a null or non-callable function is not called. */
  function FunctionCall(rt: Runtime, func: Option<PyObject>, args: PyObject): CallOutcome
  {
    if func.None? || !rt.isCallable(func.value) then NotCalled(None)
    else match rt.call(func.value, args)
      case Raised(e) => CallFailed(e)
      case Returned(r) => CallReturned(r)
  }

  /** doCallModuleFunction: import, look the function up, call it. */
  function ModuleFunctionCall(rt: Runtime, moduleName: string, functionName: string, args: PyObject): CallOutcome
  {
    match rt.importModule(moduleName)
    case Raised(e) => ImportFailed(e)
    case Returned(m) =>
      match rt.getAttr(m, functionName)
      case Raised(e) => NotCalled(Some(e))
      case Returned(f) => FunctionCall(rt, Some(f), args)
  }

  /** The value a call hands back: the converted result, or an invalid variant. */
  function ResultOf(o: CallOutcome): Variant
  {
    if o.CallReturned? then ToVariant(o.value) else Invalid
  }

  /** The argument tuple callModuleFunction builds. */
  function ArgsTuple(args: seq<Variant>): PyObject
  {
    if |args| == 0 then PyTuple([]) else ListToPythonTuple(args)
  }

  /** The locals dictionary eval builds. */
  function LocalsDict(locals: map<string, Variant>): PyObject
  {
    if |locals| == 0 then PyDict([]) else MapToPythonDict(locals, VMap(locals))
  }

  /** pythonObjectToString applied to the result of str(), or empty when there is none. */
  function StrText(s: Option<PyObject>): string
  {
    if s.None? then "" else VariantToString(ToVariant(s.value))
  }

  /** The nested call that formats a traceback. */
  function TraceOutcome(rt: Runtime, tb: PyObject): CallOutcome
  {
    ModuleFunctionCall(rt, "traceback", "format_tb", PyTuple([tb]))
  }

  /** The trace text: the lines traceback.format_tb returns, joined with "". */
  function TraceText(rt: Runtime, e: PyError): string
  {
    if e.traceback.None? then "" else Concat(VariantToStringList(ResultOf(TraceOutcome(rt, e.traceback.value))))
  }

  /** The record storeException builds. */
  function CaptureException(rt: Runtime, e: PyError): PythonException
  {
    MakeException(StrText(e.typeName), StrText(e.valueText), TraceText(rt, e))
  }

  function Rank(mode: ExceptionHandlingMode): nat
  {
    if mode == Store then 4 else 0
  }

  /** The state after a call ends with outcome `o`, the raised error handled in `mode`. */
  function AfterCall(rt: Runtime, s: BridgeState, o: CallOutcome, mode: ExceptionHandlingMode): BridgeState
    decreases Rank(mode), 2
  {
    match o
    case ImportFailed(e) => Handled(rt, s, e, mode)
    case CallFailed(e) => Handled(rt, s, e, mode)
    case NotCalled(lookup) => if lookup.Some? then s.(indicator := lookup) else s
    case CallReturned(v) => if Overflows(v) then s.(indicator := Some(LongOverflowError)) else s
  }

  /** handleException when the indicator holds `e`. */
  function Handled(rt: Runtime, s: BridgeState, e: PyError, mode: ExceptionHandlingMode): BridgeState
    decreases Rank(mode), 1
  {
    match mode
    case Store => StoreEffect(rt, s, e).(indicator := None)
    case Print => s.(indicator := None, printed := s.printed + [e])
    case Ignore => s.(indicator := None)
  }

  /** storeException: fetch `e`, format its traceback by a nested call in Print mode, fill the slot. */
  function StoreEffect(rt: Runtime, s: BridgeState, e: PyError): BridgeState
    decreases 3, 0
  {
    var fetched := s.(indicator := None);
    var formatted := if e.traceback.None? then fetched
                     else AfterCall(rt, fetched, TraceOutcome(rt, e.traceback.value), Print);
    formatted.(current := Some(CaptureException(rt, e)))
  }

  /** The state after callModuleFunction. */
  function AfterModuleCall(rt: Runtime, s: BridgeState, moduleName: string, functionName: string,
                           args: seq<Variant>, mode: ExceptionHandlingMode): BridgeState
  {
    AfterCall(rt, s.(current := None), ModuleFunctionCall(rt, moduleName, functionName, ArgsTuple(args)), mode)
  }

  /** The state after eval. */
  function AfterEval(rt: Runtime, s: BridgeState, code: string, locals: map<string, Variant>,
                     filename: string, mode: ExceptionHandlingMode): BridgeState
  {
    var cleared := s.(current := None);
    match rt.compile(code, filename)
    case Raised(e) => Handled(rt, cleared, e, mode)
    case Returned(block) =>
      match rt.evalCode(block, LocalsDict(locals))
      case Raised(e) => Handled(rt, cleared, e, mode)
      case Returned(_) => cleared
  }

  // ---------------------------------------------------------------------------------
  // The bridge

  class PythonBridge {
    var current: Option<PythonException>   // m_currentException; None is nullptr
    var indicator: Option<PyError>         // the interpreter's error indicator (PyErr_Occurred)
    var printed: seq<PyError>              // what PyErr_Print reported on stderr

    function State(): BridgeState
      reads this
    {
      BridgeState(current, indicator, printed)
    }

    /** A bridge over a freshly initialised interpreter (the bootstrap script is not modelled). */
    constructor ()
      ensures State() == BridgeState(None, None, [])
    {
      current, indicator, printed := None, None, [];
    }

    /** hasException(): the slot is non-null. */
    predicate HasException()
      reads this
    {
      current.Some?
    }

    /** currentException(). */
    function CurrentException(): Option<PythonException>
      reads this
    {
      current
    }

    /** clearException(): empty the slot; the interpreter's indicator is left as it is. */
    method ClearException()
      modifies this
      ensures State() == old(State()).(current := None)
    {
      current := None;
    }

    /** handleException(mode): true iff an error is set; Store fills the slot; every mode clears the indicator. */
    method HandleException(rt: Runtime, mode: ExceptionHandlingMode) returns (handled: bool)
      modifies this
      decreases Rank(mode), 1
      ensures handled == old(indicator).Some?
      ensures State() == if handled then Handled(rt, old(State()), old(indicator).value, mode) else old(State())
    {
      if indicator.Some? {
        match mode {
          case Store =>
            StoreException(rt);
            indicator := None;
          case Print =>
            printed := printed + [indicator.value];
            indicator := None;
          case Ignore =>
            indicator := None;
        }
        handled := true;
      } else {
        handled := false;
      }
    }

    /** storeException(): called by handleException only while an error is set. */
    method StoreException(rt: Runtime)
      requires indicator.Some?
      modifies this
      decreases 3, 0
      ensures State() == StoreEffect(rt, old(State()), old(indicator).value)
    {
      var e := indicator.value;
      indicator := None;
      var typeText := StrText(e.typeName);
      var message := StrText(e.valueText);
      var trace := "";
      if e.traceback.Some? {
        var formatted := DoCallModuleFunction(rt, "traceback", "format_tb", PyTuple([e.traceback.value]), Print);
        trace := Concat(VariantToStringList(formatted));
      }
      current := Some(MakeException(typeText, message, trace));
    }

    /** doCallFunction. */
    method DoCallFunction(rt: Runtime, func: Option<PyObject>, args: PyObject, mode: ExceptionHandlingMode)
      returns (r: Variant)
      modifies this
      decreases Rank(mode), 2
      ensures r == ResultOf(FunctionCall(rt, func, args))
      ensures State() == AfterCall(rt, old(State()), FunctionCall(rt, func, args), mode)
    {
      if func.Some? && rt.isCallable(func.value) {
        var called := rt.call(func.value, args);
        if called.Returned? {
          r := ToVariant(called.result);
          if Overflows(called.result) {
            indicator := Some(LongOverflowError);
          }
        } else {
          indicator := Some(called.error);
          var handled := HandleException(rt, mode);
          r := Invalid;
        }
      } else {
        r := Invalid;
      }
    }

    /** doCallModuleFunction. */
    method DoCallModuleFunction(rt: Runtime, moduleName: string, functionName: string, args: PyObject,
                                mode: ExceptionHandlingMode) returns (r: Variant)
      modifies this
      decreases Rank(mode), 3
      ensures r == ResultOf(ModuleFunctionCall(rt, moduleName, functionName, args))
      ensures State() == AfterCall(rt, old(State()), ModuleFunctionCall(rt, moduleName, functionName, args), mode)
    {
      var imported := rt.importModule(moduleName);
      if imported.Returned? {
        var func: Option<PyObject> := None;
        var lookup := rt.getAttr(imported.result, functionName);
        if lookup.Returned? {
          func := Some(lookup.result);
        } else {
          indicator := Some(lookup.error);
        }
        r := DoCallFunction(rt, func, args, mode);
      } else {
        indicator := Some(imported.error);
        var handled := HandleException(rt, mode);
        r := Invalid;
      }
    }

    /** callModuleFunction: clear the slot, build the argument tuple, call. */
    method CallModuleFunction(rt: Runtime, moduleName: string, functionName: string, args: seq<Variant>,
                              mode: ExceptionHandlingMode) returns (r: Variant)
      modifies this
      ensures r == ResultOf(ModuleFunctionCall(rt, moduleName, functionName, ArgsTuple(args)))
      ensures State() == AfterModuleCall(rt, old(State()), moduleName, functionName, args, mode)
    {
      ClearException();
      var pArgs := if |args| == 0 then PyTuple([]) else ListToPythonTuple(args);
      r := DoCallModuleFunction(rt, moduleName, functionName, pArgs, mode);
    }

    /** eval: clear the slot, compile, and run the block only if it compiled. */
    method Eval(rt: Runtime, code: string, locals: map<string, Variant>, filename: string,
                mode: ExceptionHandlingMode)
      modifies this
      ensures State() == AfterEval(rt, old(State()), code, locals, filename, mode)
    {
      EvalOutcomes(rt, State(), code, locals, filename, mode, rt.evalCode);
      ClearException();
      ghost var cleared := State();
      var compiled := rt.compile(code, filename);
      if compiled.Returned? {
        var pLocals := if |locals| == 0 then PyDict([]) else MapToPythonDict(locals, VMap(locals));
        assert pLocals == LocalsDict(locals);
        var evaluated := rt.evalCode(compiled.result, pLocals);
        if evaluated.Raised? {
          indicator := Some(evaluated.error);
          var handled := HandleException(rt, mode);
          HandledIgnoresIndicator(rt, cleared, evaluated.error, mode, Some(evaluated.error));
        }
      } else {
        indicator := Some(compiled.error);
        var handled := HandleException(rt, mode);
        HandledIgnoresIndicator(rt, cleared, compiled.error, mode, Some(compiled.error));
      }
    }
  }

  /** handleException's effect does not depend on what the indicator held before. */
  lemma HandledIgnoresIndicator(rt: Runtime, s: BridgeState, e: PyError, mode: ExceptionHandlingMode, i: Option<PyError>)
    ensures Handled(rt, s.(indicator := i), e, mode) == Handled(rt, s, e, mode)
  {
  }

  // ---------------------------------------------------------------------------------
  // Properties

  /** handleException clears the indicator in every mode; only Store writes the slot, and overwrites it. */
  lemma HandlingModes(rt: Runtime, s: BridgeState, e: PyError, mode: ExceptionHandlingMode)
    ensures Handled(rt, s, e, mode).indicator == None
    ensures Handled(rt, s, e, mode).current == if mode == Store then Some(CaptureException(rt, e)) else s.current
    ensures mode == Print ==> Handled(rt, s, e, mode).printed == s.printed + [e]
    ensures mode == Ignore ==> Handled(rt, s, e, mode) == s.(indicator := None)
  {
  }

  /**
   * Store mode describes the handled error: the slot holds a non-null record whose type and
   * message are str() of the error's type name and value, whose trace is empty without a
   * traceback and, when format_tb returns a list of str or unicode lines, is their texts
   * joined; the indicator ends clear, and without a traceback nothing is printed.
   */
  lemma StoredRecordDescribesError(rt: Runtime, s: BridgeState, e: PyError, lines: seq<PyObject>)
    ensures var t := Handled(rt, s, e, Store);
            && t.indicator == None
            && t.current.Some? && !t.current.value.IsNull()
            && t.current.value.Type() == StrText(e.typeName)
            && t.current.value.Message() == StrText(e.valueText)
            && (e.traceback.None? ==> t.current.value.Trace() == "" && t.printed == s.printed)
            && (e.traceback.Some? && TraceOutcome(rt, e.traceback.value) == CallReturned(PyList(lines))
                && (forall i :: 0 <= i < |lines| ==> IsTextLine(lines[i]))
                ==> t.current.value.Trace() == Concat(LineTexts(lines)))
  {
    if e.traceback.Some? && TraceOutcome(rt, e.traceback.value) == CallReturned(PyList(lines))
       && (forall i :: 0 <= i < |lines| ==> IsTextLine(lines[i])) {
      TraceJoinsLines(rt, e, lines);
    }
  }

  /** str() results read back as text: a str through Latin-1, a unicode object as it is. */
  lemma StrTextReadsBack(data: seq<byte>, u: string)
    ensures StrText(Some(PyStr(data))) == Latin1Decode(data)
    ensures StrText(Some(PyUnicode(u))) == u
    ensures StrText(None) == ""
  {
  }

  /**
   * callModuleFunction: the slot is filled exactly when the import or the call raised in
   * Store mode; a missing or non-callable function gives an invalid result and no
   * exception, though a failed lookup leaves its AttributeError in the indicator.
   */
  lemma CallModuleFunctionOutcomes(rt: Runtime, s: BridgeState, moduleName: string, functionName: string,
                                   args: seq<Variant>, mode: ExceptionHandlingMode)
    ensures var o := ModuleFunctionCall(rt, moduleName, functionName, ArgsTuple(args));
            var t := AfterModuleCall(rt, s, moduleName, functionName, args, mode);
            && (t.current.Some? <==> mode == Store && (o.ImportFailed? || o.CallFailed?))
            && (o.ImportFailed? || o.CallFailed? ==> t.indicator == None && !ResultOf(o).IsValid())
            && (o.ImportFailed? && mode == Store ==> t.current == Some(CaptureException(rt, o.importError)))
            && (o.NotCalled? ==>
                  t.current == None && !ResultOf(o).IsValid()
                  && t.indicator == (if o.lookupError.Some? then o.lookupError else s.indicator))
            && (o.CallReturned? ==>
                  ResultOf(o) == ToVariant(o.value)
                  && t == s.(current := None,
                             indicator := if Overflows(o.value) then Some(LongOverflowError) else s.indicator))
  {
  }

  /**
   * A function that returns a long outside the C long range gives -1 and leaves OverflowError
   * in the indicator, with no exception stored.
   */
  lemma ReturnedLongOverflows(rt: Runtime, s: BridgeState, moduleName: string, functionName: string,
                              args: seq<Variant>, mode: ExceptionHandlingMode, l: int)
    requires ModuleFunctionCall(rt, moduleName, functionName, ArgsTuple(args)) == CallReturned(PyLong(l))
    requires !InInt64(l)
    ensures ResultOf(ModuleFunctionCall(rt, moduleName, functionName, ArgsTuple(args))) == VInt(LongLong, -1)
    ensures AfterModuleCall(rt, s, moduleName, functionName, args, mode).indicator == Some(LongOverflowError)
    ensures AfterModuleCall(rt, s, moduleName, functionName, args, mode).current == None
  {
    LongOutOfRange(l);
  }

  /** A public call that raises nothing leaves no exception. */
  lemma NoRaiseNoException(rt: Runtime, s: BridgeState, moduleName: string, functionName: string,
                           args: seq<Variant>, mode: ExceptionHandlingMode)
    requires !ModuleFunctionCall(rt, moduleName, functionName, ArgsTuple(args)).ImportFailed?
    requires !ModuleFunctionCall(rt, moduleName, functionName, ArgsTuple(args)).CallFailed?
    ensures AfterModuleCall(rt, s, moduleName, functionName, args, mode).current == None
  {
  }

  /** The arguments become a tuple of the same length, in order; no arguments give the empty tuple. */
  lemma ArgumentsBecomeTuple(args: seq<Variant>)
    ensures ArgsTuple(args) == ListToPythonTuple(args)
    ensures ArgsTuple(args).PyTuple? && |ArgsTuple(args).elems| == |args|
    ensures forall i :: 0 <= i < |args| ==> ArgsTuple(args).elems[i] == ToPython(args[i])
    ensures args == [] ==> ArgsTuple(args) == PyTuple([])
  {
  }

  /** The empty-locals shortcut builds the same dictionary as the converter. */
  lemma LocalsBecomeDict(locals: map<string, Variant>)
    ensures LocalsDict(locals) == MapToPythonDict(locals, VMap(locals))
  {
    if |locals| == 0 {
      assert locals == map[];
      EmptyContainers();
    }
  }

  /**
   * eval: a compile failure is handled and nothing runs (the outcome does not depend on
   * what running would do); a run that raises is handled; a clean run stores nothing.
   */
  lemma EvalOutcomes(rt: Runtime, s: BridgeState, code: string, locals: map<string, Variant>,
                     filename: string, mode: ExceptionHandlingMode, run: (PyObject, PyObject) -> Outcome)
    ensures rt.compile(code, filename).Raised? ==>
      AfterEval(rt, s, code, locals, filename, mode)
        == Handled(rt, s.(current := None), rt.compile(code, filename).error, mode)
        == AfterEval(rt.(evalCode := run), s, code, locals, filename, mode)
    ensures rt.compile(code, filename).Returned? ==>
      var ran := rt.evalCode(rt.compile(code, filename).result, LocalsDict(locals));
      AfterEval(rt, s, code, locals, filename, mode)
        == if ran.Raised? then Handled(rt, s.(current := None), ran.error, mode) else s.(current := None)
  {
    if rt.compile(code, filename).Raised? {
      var e := rt.compile(code, filename).error;
      NestedCallIgnoresEval(rt, run, e);
    }
  }

  /** Handling an error never runs code through eval, so replacing that answer changes nothing. */
  lemma NestedCallIgnoresEval(rt: Runtime, run: (PyObject, PyObject) -> Outcome, e: PyError)
    ensures forall s, mode :: Handled(rt, s, e, mode) == Handled(rt.(evalCode := run), s, e, mode)
  {
    var rt' := rt.(evalCode := run);
    assert forall tb :: TraceOutcome(rt, tb) == TraceOutcome(rt', tb);
    assert CaptureException(rt, e) == CaptureException(rt', e);
  }

  /** A line of format_tb's list: a str, as Python 2 returns, or a unicode object. */
  predicate IsTextLine(o: PyObject)
  {
    o.PyStr? || o.PyUnicode?
  }

  /** The text of a str or unicode line once converted: a str through Latin-1, a unicode object as it is. */
  function TextOfLine(o: PyObject): string
    requires IsTextLine(o)
  {
    if o.PyStr? then Latin1Decode(o.data) else o.u
  }

  /** The texts of a list of str or unicode lines, in order. */
  function LineTexts(lines: seq<PyObject>): seq<string>
    requires forall i :: 0 <= i < |lines| ==> IsTextLine(lines[i])
  {
    seq(|lines|, i requires 0 <= i < |lines| => TextOfLine(lines[i]))
  }

  /**
   * When format_tb returns a list of str or unicode lines, the trace is their texts joined:
   * toStringList reads each line back, and join("") concatenates them.
   */
  lemma TraceJoinsLines(rt: Runtime, e: PyError, lines: seq<PyObject>)
    requires e.traceback.Some?
    requires TraceOutcome(rt, e.traceback.value) == CallReturned(PyList(lines))
    requires forall i :: 0 <= i < |lines| ==> IsTextLine(lines[i])
    ensures TraceText(rt, e) == Concat(LineTexts(lines))
  {
    TextListReadsBack(lines);
  }

  /** A list of str or unicode lines reads back, through toStringList, as the lines' texts. */
  lemma TextListReadsBack(lines: seq<PyObject>)
    requires forall i :: 0 <= i < |lines| ==> IsTextLine(lines[i])
    ensures VariantToStringList(ToVariant(PyList(lines))) == LineTexts(lines)
  {
    var items := seq(|lines|, i requires 0 <= i < |lines| => ToVariant(lines[i]));
    assert ToVariant(PyList(lines)) == VList(items);
    var strs := VariantToStringList(VList(items));
    forall i | 0 <= i < |lines|
      ensures strs[i] == TextOfLine(lines[i])
    {
      assert items[i] == VString(TextOfLine(lines[i]));
    }
  }

  /** The list of str lines Python 2's format_tb returns. */
  function StrList(lines: seq<seq<byte>>): PyObject
  {
    PyList(seq(|lines|, i requires 0 <= i < |lines| => PyStr(lines[i])))
  }

  /** A list of str lines reads back as each line's Latin-1 text. */
  lemma StrListReadsBack(lines: seq<seq<byte>>)
    ensures VariantToStringList(ToVariant(StrList(lines))) == seq(|lines|, i requires 0 <= i < |lines| => Latin1Decode(lines[i]))
  {
    var objs := StrList(lines).elements;
    TextListReadsBack(objs);
    assert LineTexts(objs) == seq(|lines|, i requires 0 <= i < |lines| => Latin1Decode(lines[i]));
  }

  function UnicodeList(lines: seq<string>): PyObject
  {
    PyList(seq(|lines|, i requires 0 <= i < |lines| => PyUnicode(lines[i])))
  }

  lemma UnicodeListReadsBack(lines: seq<string>)
    ensures VariantToStringList(ToVariant(UnicodeList(lines))) == lines
  {
    var objs := UnicodeList(lines).elements;
    var items := seq(|objs|, i requires 0 <= i < |objs| => ToVariant(objs[i]));
    assert ToVariant(UnicodeList(lines)) == VList(items);
    forall i | 0 <= i < |lines|
      ensures items[i] == VString(lines[i])
    {
      assert objs[i] == PyUnicode(lines[i]);
    }
    var strs := VariantToStringList(VList(items));
    forall i | 0 <= i < |lines|
      ensures strs[i] == lines[i]
    {
      assert items[i] == VString(lines[i]);
    }
    assert strs == lines;
  }
}
