/**
 * The background renderer (src/RstRenderer.cpp): the delayed, coalescing scheduling of
 * render jobs, the job that calls docutils through the bridge, and the exception page.
 *
 * A job runs on a worker thread; the model performs its work at the moment it finishes
 * (ThreadFinished), which is the only point where its result is observed.
 */
module Renderer {

  import opened Wrappers
  import opened Strings
  import opened Values
  import opened Exceptions
  import opened Bridge
  import opened Html

  // ---------------------------------------------------------------------------------
  // The exception page

  const DocumentHeader: string :=
    "<!doctype html>\n<meta charset=\"utf-8\">\n<title>Renderer exception</title>\n<div class=\"rst-exception\">\n"
  const MessageOpen: string := "<pre class=\"rst-exception-message\">"
  const TraceOpen: string := "<pre class=\"rst-exception-trace\">"
  const PreClose: string := "</pre>\n"
  const DocumentClose: string := "</div>\n"

  /** The fixed text of the page, with every exception field left out. */
  const Template: string := DocumentHeader + MessageOpen + ": " + PreClose + TraceOpen + PreClose + DocumentClose

  function MessageBlock(e: PythonException): string
  {
    MessageOpen + HtmlEscape(e.Type()) + ": " + HtmlEscape(e.Message()) + PreClose
  }

  function TraceBlock(e: PythonException): string
  {
    TraceOpen + HtmlEscape(e.Trace()) + PreClose
  }

  /** The page renderPythonException produces for an exception record. */
  function ExceptionDocument(e: PythonException): string
  {
    DocumentHeader + MessageBlock(e) + TraceBlock(e) + DocumentClose
  }

  /** Every '<', '>' and '"' of the page belongs to the fixed template: the exception's text adds no markup. */
  lemma ExceptionTextIsInert(e: PythonException, c: char)
    requires c == '<' || c == '>' || c == '"'
    ensures multiset(ExceptionDocument(e))[c] == multiset(Template)[c]
  {
    EscapedHasNoMarkup(e.Type());
    EscapedHasNoMarkup(e.Message());
    EscapedHasNoMarkup(e.Trace());
    FieldsAddNothing(DocumentHeader, MessageOpen, HtmlEscape(e.Type()), ": ", HtmlEscape(e.Message()), PreClose,
                     TraceOpen, HtmlEscape(e.Trace()), DocumentClose, c);
  }

  /** Counting a character over the page's pieces, when the fields do not contain it. */
  lemma FieldsAddNothing(h: string, mo: string, t: string, sep: string, m: string, pc: string, to: string,
                         r: string, dc: string, c: char)
    requires c !in t && c !in m && c !in r
    ensures multiset(h + (mo + t + sep + m + pc) + (to + r + pc) + dc)[c]
         == multiset(h + mo + sep + pc + to + pc + dc)[c]
  {
    assert multiset(t)[c] == 0 && multiset(m)[c] == 0 && multiset(r)[c] == 0;
  }

  /** The text before the first '<': the content of an element that holds no markup. */
  function TextBeforeTag(s: string): (r: string)
    ensures r <= s && '<' !in r
    ensures |r| < |s| ==> s[|r|] == '<'
  {
    if s == [] || s[0] == '<' then [] else [s[0]] + TextBeforeTag(s[1..])
  }

  /** Text free of '<' followed by a tag is read up to that tag. */
  lemma {:induction false} TextBeforeTagOf(x: string, y: string)
    requires '<' !in x && |y| > 0 && y[0] == '<'
    ensures TextBeforeTag(x + y) == x
  {
    if x == [] {
      assert x + y == y;
    } else {
      assert (x + y)[0] == x[0] && (x + y)[1..] == x[1..] + y;
      TextBeforeTagOf(x[1..], y);
      assert [x[0]] + x[1..] == x;
    }
  }

  /** Reading the last block back: its content runs up to the next tag, after which only `end` may follow. */
  function ReadTrace(tail: string, end: string): Option<string>
  {
    var trace := TextBeforeTag(tail);
    if tail[|trace|..] != end then None else Some(HtmlUnescape(trace))
  }

  /** Reading back what follows the head: a line up to the next tag, then `mid`, then the last block. */
  function ReadRest(rest: string, mid: string, end: string): Option<(string, string)>
  {
    var line := TextBeforeTag(rest);
    var after := rest[|line|..];
    if !(mid <= after) then None
    else
      match ReadTrace(after[|mid|..], end)
      case None => None
      case Some(trace) => Some((HtmlUnescape(line), trace))
  }

  /**
   * Reading back a page made of a fixed head, a line, a fixed middle, a trace and a fixed end:
   * the line is what stands between the head and the next tag, the trace what stands between
   * the middle and the next tag, each unescaped; None for text without that shape.
   */
  function ReadPage(page: string, head: string, mid: string, end: string): Option<(string, string)>
  {
    if !(head <= page) then None else ReadRest(page[|head|..], mid, end)
  }

  /** Reading an exception page back: its "type: message" line and its trace. */
  function ReadExceptionPage(page: string): Option<(string, string)>
  {
    ReadPage(page, DocumentHeader + MessageOpen, PreClose + TraceOpen, PreClose + DocumentClose)
  }

  /** A trace without '<' followed by the closing pieces reads back as the trace, unescaped. */
  lemma ReadTraceOf(trace: string, end: string)
    requires '<' !in trace && |end| > 0 && end[0] == '<'
    ensures ReadTrace(trace + end, end) == Some(HtmlUnescape(trace))
  {
    TextBeforeTagOf(trace, end);
    assert (trace + end)[|trace|..] == end;
  }

  /** A line without '<', the middle piece and a last block read back as the line and the trace. */
  lemma ReadRestOf(line: string, mid: string, trace: string, end: string)
    requires '<' !in line && '<' !in trace
    requires |mid| > 0 && mid[0] == '<' && |end| > 0 && end[0] == '<'
    ensures ReadRest(line + (mid + (trace + end)), mid, end) == Some((HtmlUnescape(line), HtmlUnescape(trace)))
  {
    TextBeforeTagOf(line, mid + (trace + end));
    assert (line + (mid + (trace + end)))[|line|..] == mid + (trace + end);
    assert (mid + (trace + end))[|mid|..] == trace + end;
    ReadTraceOf(trace, end);
  }

  /** A page assembled from a line and a trace that hold no '<', between pieces that open with a tag, reads back as them. */
  lemma ReadAssembledPage(head: string, line: string, mid: string, trace: string, end: string)
    requires '<' !in line && '<' !in trace
    requires |mid| > 0 && mid[0] == '<' && |end| > 0 && end[0] == '<'
    ensures ReadPage(head + line + mid + trace + end, head, mid, end) == Some((HtmlUnescape(line), HtmlUnescape(trace)))
  {
    var page := head + line + mid + trace + end;
    assert page == head + (line + (mid + (trace + end)));
    assert page[|head|..] == line + (mid + (trace + end));
    ReadRestOf(line, mid, trace, end);
  }

  /** The page's message line is the type, ": " and the message, each escaped. */
  lemma MessageLineEscapes(e: PythonException)
    ensures '<' !in HtmlEscape(e.Type()) + ": " + HtmlEscape(e.Message())
    ensures HtmlEscape(e.Type() + ": " + e.Message()) == HtmlEscape(e.Type()) + ": " + HtmlEscape(e.Message())
  {
    EscapedHasNoMarkup(e.Type());
    EscapedHasNoMarkup(e.Message());
    NoTagInJoin(HtmlEscape(e.Type()), ": ", HtmlEscape(e.Message()));
    EscapeAroundSeparator(e.Type(), e.Message());
  }

  /** The separator ": " passes through escaping unchanged, so the line escapes piece by piece. */
  lemma EscapeAroundSeparator(t: string, m: string)
    ensures HtmlEscape(t + ": " + m) == HtmlEscape(t) + ": " + HtmlEscape(m)
  {
    EscapeConcat(t + ": ", m);
    EscapeConcat(t, ": ");
    assert HtmlEscape(": ") == ": ";
  }

  /** Three pieces without '<' join into text without '<'. */
  lemma NoTagInJoin(t: string, sep: string, m: string)
    requires '<' !in t && '<' !in sep && '<' !in m
    ensures '<' !in t + sep + m
  {
    assert t + sep + m == t + (sep + m);
  }

  /**
   * The page reads back as the exception: its message line gives the type, ": " and the
   * message, and its trace block the trace. The line does not tell type from message when
   * the type holds ": " itself (TypeAndMessageRunTogether).
   */
  lemma ExceptionFieldsReadBack(e: PythonException)
    ensures ReadExceptionPage(ExceptionDocument(e)) == Some((e.Type() + ": " + e.Message(), e.Trace()))
  {
    var line := HtmlEscape(e.Type()) + ": " + HtmlEscape(e.Message());
    var trace := HtmlEscape(e.Trace());
    MessageLineEscapes(e);
    EscapedHasNoMarkup(e.Trace());
    var head, mid, end := DocumentHeader + MessageOpen, PreClose + TraceOpen, PreClose + DocumentClose;
    assert mid[0] == '<' && end[0] == '<';
    ReadAssembledPage(head, line, mid, trace, end);
    Regroup(DocumentHeader, MessageOpen, HtmlEscape(e.Type()), ": ", HtmlEscape(e.Message()), PreClose, TraceOpen, trace, DocumentClose);
    UnescapeInvertsEscape(e.Type() + ": " + e.Message());
    UnescapeInvertsEscape(e.Trace());
  }

  /** The page's pieces regrouped around its two fields. */
  lemma Regroup(h: string, mo: string, t: string, sep: string, m: string, pc: string, to: string, trace: string, dc: string)
    ensures h + (mo + t + sep + m + pc) + (to + trace + pc) + dc == (h + mo) + (t + sep + m) + (pc + to) + trace + (pc + dc)
  {
  }

  /**
   * Exceptions that differ only in which side of a ": " the text between type and message
   * falls on give the same page, so the page cannot tell their types apart.
   */
  lemma TypeAndMessageRunTogether(x: string, y: string, z: string, trace: string)
    ensures MakeException(x + ": " + y, z, trace) != MakeException(x, y + ": " + z, trace)
    ensures ExceptionDocument(MakeException(x + ": " + y, z, trace)) == ExceptionDocument(MakeException(x, y + ": " + z, trace))
  {
    var e, f := MakeException(x + ": " + y, z, trace), MakeException(x, y + ": " + z, trace);
    assert |e.Type()| > |f.Type()|;
    var ex, ey, ez, sep := HtmlEscape(x), HtmlEscape(y), HtmlEscape(z), HtmlEscape(": ");
    EscapeConcat(x + ": ", y);
    EscapeConcat(x, ": ");
    EscapeConcat(y + ": ", z);
    EscapeConcat(y, ": ");
    assert sep == ": ";
    SameLine(MessageOpen, ex + sep + ey, ez, ex, ey + sep + ez, PreClose);
  }

  /** Two splits of the same line around ": " give the same message block. */
  lemma SameLine(open: string, t: string, m: string, t': string, m': string, close: string)
    requires t + ": " + m == t' + ": " + m'
    ensures open + t + ": " + m + close == open + t' + ": " + m' + close
  {
    assert open + t + ": " + m + close == open + (t + ": " + m) + close;
    assert open + t' + ": " + m' + close == open + (t' + ": " + m') + close;
  }

  // ---------------------------------------------------------------------------------
  // The render job

  /** The arguments of docutils.core.publish_string, in its parameter order. */
  function PublishArgs(input: string): seq<Variant>
  {
    [VString(input), Invalid, Invalid, Invalid, VString("standalone"), Invalid,
     VString("restructuredtext"), Invalid, VString("html5"), Invalid, Invalid,
     VMap(map["output_encoding" := VString("unicode")])]
  }

  /** How the job's call of publish_string ends. */
  function PublishCall(rt: Runtime, input: string): CallOutcome
  {
    ModuleFunctionCall(rt, "docutils.core", "publish_string", ArgsTuple(PublishArgs(input)))
  }

  /** The bytes a job hands to `ready`: the exception page when the call failed with an exception stored, else the result's bytes. */
  function JobOutput(result: Variant, slot: Option<PythonException>): seq<byte>
  {
    if !result.IsValid() && slot.Some? then Utf8Encode(ExceptionDocument(slot.value)) else VariantToBytes(result)
  }

  /** The job's output for each way the call can end. */
  lemma JobOutcomes(rt: Runtime, s: BridgeState, input: string)
    ensures var o := PublishCall(rt, input);
            var out := JobOutput(ResultOf(o), AfterModuleCall(rt, s, "docutils.core", "publish_string", PublishArgs(input), Store).current);
            && (o.ImportFailed? ==> out == Utf8Encode(ExceptionDocument(CaptureException(rt, o.importError))))
            && (o.CallFailed? ==> out == Utf8Encode(ExceptionDocument(CaptureException(rt, o.callError))))
            && (o.NotCalled? ==> out == [])
            && (o == CallReturned(PyUnicode(ToText(o))) ==> out == Utf8Encode(ToText(o)))
  {
    CallModuleFunctionOutcomes(rt, s, "docutils.core", "publish_string", PublishArgs(input), Store);
  }

  /** The text of a returned unicode object (helper for JobOutcomes). */
  function ToText(o: CallOutcome): string
  {
    if o.CallReturned? && o.value.PyUnicode? then o.value.u else ""
  }

  /** The input is the first argument, sent as a unicode object; settings_overrides asks for unicode output. */
  lemma PublishArgumentsCarryInput(input: string)
    ensures |ArgsTuple(PublishArgs(input)).elems| == 12
    ensures ArgsTuple(PublishArgs(input)).elems[0] == PyUnicode(input)
    ensures ArgsTuple(PublishArgs(input)).elems[4] == PyUnicode("standalone")
    ensures ArgsTuple(PublishArgs(input)).elems[6] == PyUnicode("restructuredtext")
    ensures ArgsTuple(PublishArgs(input)).elems[8] == PyUnicode("html5")
    ensures forall i :: i in {1, 2, 3, 5, 7, 9, 10} ==> ArgsTuple(PublishArgs(input)).elems[i] == PyNone
  {
    ArgumentsBecomeTuple(PublishArgs(input));
  }

  // ---------------------------------------------------------------------------------
  // Scheduling

  /**
   * The scheduler's state. `running` is the input of the job in flight (None when no
   * thread exists), `pending` the pendingInput (None is the null string), `started`
   * every input a job was started for, and `latest` the input of the last schedule call.
   */
  datatype Scheduler = Scheduler(running: Option<string>, pending: Option<string>, delay: int,
                                 timerArmed: bool, started: seq<string>, latest: Option<string>)

  function Initial(): Scheduler
  {
    Scheduler(None, None, 0, false, [], None)
  }

  /** The text render() is given for the pending input: a null string converts as "". */
  function PendingText(s: Scheduler): string
  {
    if s.pending.Some? then s.pending.value else ""
  }

  /** render(input): starts a job only if none is in flight. */
  function RenderStep(s: Scheduler, input: string): (Scheduler, bool)
  {
    if s.running.None? then (s.(running := Some(input), started := s.started + [input]), true) else (s, false)
  }

  /** schedule(input) as the source writes it. */
  function ScheduleStepAsWritten(s: Scheduler, input: string): Scheduler
  {
    var s := s.(latest := Some(input));
    if s.delay > 0 then s.(pending := Some(input), timerArmed := true)
    else
      var (t, ok) := RenderStep(s, input);
      if ok then t else t.(pending := Some(input))
  }

  /** schedule(input), corrected: an immediate render also drops the older pending input. */
  function ScheduleStep(s: Scheduler, input: string): Scheduler
  {
    var s := s.(latest := Some(input));
    if s.delay > 0 then s.(pending := Some(input), timerArmed := true)
    else
      var (t, ok) := RenderStep(s, input);
      if ok then t.(pending := None) else t.(pending := Some(input))
  }

  /** reschedule(). */
  function RescheduleStep(s: Scheduler): Scheduler
  {
    if s.delay > 0 then s.(timerArmed := true)
    else
      var (t, ok) := RenderStep(s, PendingText(s));
      if ok then t.(pending := None) else t
  }

  /** The single-shot timer expires and timerTriggered() runs, as the source writes it. */
  function TimerStepAsWritten(s: Scheduler): Scheduler
    requires s.timerArmed
  {
    var (t, ok) := RenderStep(s.(timerArmed := false), PendingText(s));
    if ok then t.(pending := None) else t
  }

  /** The timer expires, corrected: with nothing pending there is nothing to render. */
  function TimerStep(s: Scheduler): Scheduler
    requires s.timerArmed
  {
    if s.pending.None? then s.(timerArmed := false)
    else
      var (t, ok) := RenderStep(s.(timerArmed := false), s.pending.value);
      if ok then t.(pending := None) else t
  }

  /** The running job finishes and threadFinished() runs. */
  function FinishStep(s: Scheduler): Scheduler
    requires s.running.Some?
  {
    var t := s.(running := None);
    if t.pending.Some? then RescheduleStep(t) else t
  }

  /** No input is left waiting without a timer or a job that will pick it up. */
  predicate NothingStranded(s: Scheduler)
  {
    s.pending.Some? ==> s.timerArmed || s.running.Some?
  }

  /** The job in flight is the last one started, so at most one is in flight. */
  predicate OneJobInFlight(s: Scheduler)
  {
    s.running.Some? ==> |s.started| > 0 && s.running.value == s.started[|s.started| - 1]
  }

  /**
   * The preview keeps up with the editor: a pending input is the latest one, and with
   * nothing pending the last job started rendered the latest input.
   */
  predicate UpToDate(s: Scheduler)
  {
    && (s.pending.Some? ==> s.pending == s.latest)
    && (s.pending.None? && s.latest.Some? ==> |s.started| > 0 && s.started[|s.started| - 1] == s.latest.value)
  }

  predicate Valid(s: Scheduler)
  {
    NothingStranded(s) && OneJobInFlight(s) && UpToDate(s)
  }

  lemma InitialValid()
    ensures Valid(Initial())
  {
  }

  /** render() starts a job exactly when none is running. */
  lemma RenderStartsOnlyWhenIdle(s: Scheduler, input: string)
    ensures RenderStep(s, input).1 <==> s.running.None?
    ensures RenderStep(s, input).1 ==>
              RenderStep(s, input).0.running == Some(input) && RenderStep(s, input).0.started == s.started + [input]
    ensures !RenderStep(s, input).1 ==> RenderStep(s, input).0 == s
  {
  }

  /** Every event keeps the scheduler valid. */
  lemma StepsKeepValid(s: Scheduler, input: string, msec: int)
    requires Valid(s)
    ensures Valid(ScheduleStep(s, input))
    ensures Valid(s.(delay := msec))
    ensures s.timerArmed ==> Valid(TimerStep(s))
    ensures s.running.Some? ==> Valid(FinishStep(s))
  {
  }

  /** With a delay, schedule only records the input and restarts the timer. */
  lemma DelayedScheduleRecordsInput(s: Scheduler, input: string)
    requires s.delay > 0
    ensures ScheduleStep(s, input) == s.(pending := Some(input), timerArmed := true, latest := Some(input))
    ensures ScheduleStepAsWritten(s, input) == ScheduleStep(s, input)
  {
  }

  /** Without a delay, an idle renderer starts the input at once; a busy one keeps it pending. */
  lemma ImmediateSchedule(s: Scheduler, input: string)
    requires s.delay <= 0
    ensures s.running.None? ==>
              ScheduleStep(s, input).running == Some(input) && ScheduleStep(s, input).pending == None
    ensures s.running.Some? ==> ScheduleStep(s, input) == s.(pending := Some(input), latest := Some(input))
  {
  }

  /** A finished job hands the pending input on: to the timer with a delay, to a new job without one. */
  lemma FinishPicksUpPending(s: Scheduler)
    requires s.running.Some? && s.pending.Some?
    ensures s.delay > 0 ==> FinishStep(s) == s.(running := None, timerArmed := true)
    ensures s.delay <= 0 ==> FinishStep(s) == s.(running := Some(s.pending.value), pending := None,
                                                 started := s.started + [s.pending.value])
  {
  }

  /** Schedules with no other event in between. */
  function ScheduleAll(s: Scheduler, inputs: seq<string>): Scheduler
    decreases |inputs|
  {
    if inputs == [] then s else ScheduleAll(ScheduleStep(s, inputs[0]), inputs[1..])
  }

  /** A burst of edits while the timer runs coalesces: only the newest input is kept and nothing is started. */
  lemma {:induction false} DelayedBurstKeepsNewest(s: Scheduler, inputs: seq<string>)
    requires s.delay > 0 && inputs != []
    ensures ScheduleAll(s, inputs) == s.(pending := Some(inputs[|inputs| - 1]), timerArmed := true,
                                         latest := Some(inputs[|inputs| - 1]))
    decreases |inputs|
  {
    if |inputs| > 1 {
      DelayedBurstKeepsNewest(ScheduleStep(s, inputs[0]), inputs[1..]);
    }
  }

  /** A burst of edits while a job runs without delay coalesces the same way. */
  lemma {:induction false} BusyBurstKeepsNewest(s: Scheduler, inputs: seq<string>)
    requires s.delay <= 0 && s.running.Some? && inputs != []
    ensures ScheduleAll(s, inputs) == s.(pending := Some(inputs[|inputs| - 1]), latest := Some(inputs[|inputs| - 1]))
    decreases |inputs|
  {
    if |inputs| > 1 {
      BusyBurstKeepsNewest(ScheduleStep(s, inputs[0]), inputs[1..]);
    }
  }

  /**
   * As written, switching the delay to zero while an input is pending lets that older
   * input be rendered after the newer one: "b" is rendered at once, then "a" when the
   * job finishes, and the preview ends on the stale text.
   */
  lemma StaleInputRenderedLast()
    ensures var s1 := ScheduleStepAsWritten(Initial().(delay := 300), "a");
            var s2 := ScheduleStepAsWritten(s1.(delay := 0), "b");
            var s3 := FinishStep(s2);
            && Valid(s1)
            && s2.started == ["b"] && s2.pending == Some("a") && !UpToDate(s2)
            && s3.started == ["b", "a"] && s3.pending == None && s3.latest == Some("b") && !UpToDate(s3)
  {
    var s1 := ScheduleStepAsWritten(Initial().(delay := 300), "a");
    var s2 := ScheduleStepAsWritten(s1.(delay := 0), "b");
    assert s2.started == [] + ["b"];
    var s3 := FinishStep(s2);
    assert s3.started == ["b"] + ["a"];
  }

  /**
   * As written, a timer left running after its input was rendered another way fires
   * with nothing pending and renders the null string: the preview ends empty.
   */
  lemma EmptyInputRenderedLast()
    ensures var s1 := TimerStepAsWritten(ScheduleStep(Initial().(delay := 300), "a"));
            var s2 := ScheduleStep(s1, "b").(delay := 0);
            var s3 := FinishStep(s2);
            var s4 := FinishStep(s3);
            && s3.started == ["a", "b"] && s3.pending == None && s3.timerArmed && UpToDate(s3)
            && TimerStepAsWritten(s4).started == ["a", "b", ""] && !UpToDate(TimerStepAsWritten(s4))
            && TimerStep(s4) == s4.(timerArmed := false) && UpToDate(TimerStep(s4))
  {
    var s1 := TimerStepAsWritten(ScheduleStep(Initial().(delay := 300), "a"));
    assert s1.started == [] + ["a"];
    var s2 := ScheduleStep(s1, "b").(delay := 0);
    var s3 := FinishStep(s2);
    assert s3.started == ["a"] + ["b"];
    var s4 := FinishStep(s3);
    assert TimerStepAsWritten(s4).started == ["a", "b"] + [""];
  }

  // ---------------------------------------------------------------------------------
  // The renderer

  class RstRenderer {
    const bridge: PythonBridge
    var running: Option<string>
    var pending: Option<string>
    var delay: int
    var timerArmed: bool
    ghost var started: seq<string>  // every input a job was started for, kept for the specification
    ghost var latest: Option<string> // the input of the last schedule call, kept for the specification
    var emitted: seq<seq<byte>>     // the payload of every `ready` signal, in order

    ghost function State(): Scheduler
      reads this
    {
      Scheduler(running, pending, delay, timerArmed, started, latest)
    }

    constructor (bridge: PythonBridge)
      ensures this.bridge == bridge && State() == Initial() && emitted == []
    {
      this.bridge := bridge;
      running, pending, delay, timerArmed, started, emitted := None, None, 0, false, [], [];
      latest := None;
    }

    method SetDelay(msec: int)
      modifies this
      ensures State() == old(State()).(delay := msec) && emitted == old(emitted)
    {
      delay := msec;
    }

    method ClearPendingInput()
      modifies this
      ensures State() == old(State()).(pending := None) && emitted == old(emitted)
    {
      pending := None;
    }

    method Render(input: string) returns (ok: bool)
      modifies this
      ensures (State(), ok) == RenderStep(old(State()), input) && emitted == old(emitted)
    {
      if running.None? {
        running := Some(input);
        started := started + [input];
        ok := true;
      } else {
        ok := false;
      }
    }

    /** schedule(input), with the correction of ScheduleStep. */
    method Schedule(input: string)
      modifies this
      ensures State() == ScheduleStep(old(State()), input) && emitted == old(emitted)
    {
      latest := Some(input);
      if delay > 0 {
        pending := Some(input);
        timerArmed := true;
      } else {
        var ok := Render(input);
        if ok {
          ClearPendingInput();
        } else {
          pending := Some(input);
        }
      }
    }

    /** reschedule(): threadFinished calls it only while an input is pending. */
    method Reschedule()
      requires pending.Some?
      modifies this
      ensures State() == RescheduleStep(old(State())) && emitted == old(emitted)
    {
      if delay > 0 {
        timerArmed := true;
      } else {
        var ok := Render(pending.value);
        if ok {
          ClearPendingInput();
        }
      }
    }

    /** The single-shot timer expires and timerTriggered() runs, with the correction of TimerStep. */
    method TimerTriggered()
      requires timerArmed
      modifies this
      ensures State() == TimerStep(old(State())) && emitted == old(emitted)
    {
      timerArmed := false;
      if pending.Some? {
        var ok := Render(pending.value);
        if ok {
          ClearPendingInput();
        }
      }
    }

    /** The body of the job started for `input`. */
    method RenderJob(rt: Runtime, input: string) returns (output: seq<byte>)
      modifies bridge
      ensures bridge.State() == AfterModuleCall(rt, old(bridge.State()), "docutils.core", "publish_string",
                                                PublishArgs(input), Store)
      ensures output == JobOutput(ResultOf(PublishCall(rt, input)), bridge.CurrentException())
    {
      var result := bridge.CallModuleFunction(rt, "docutils.core", "publish_string", PublishArgs(input), Store);
      if !result.IsValid() && bridge.HasException() {
        var document := RenderPythonException(bridge.CurrentException().value);
        output := Utf8Encode(document);
      } else {
        output := VariantToBytes(result);
      }
    }

    /** renderPythonException, by successive appends. */
    method RenderPythonException(e: PythonException) returns (document: string)
      ensures document == ExceptionDocument(e)
    {
      document := DocumentHeader;
      document := document + MessageBlock(e);
      document := document + TraceBlock(e);
      document := document + DocumentClose;
    }

    /** The job in flight finishes: its result is emitted, and any pending input is rescheduled. */
    method ThreadFinished(rt: Runtime)
      requires running.Some?
      modifies this, bridge
      ensures State() == FinishStep(old(State()))
      ensures emitted == old(emitted) + [JobOutput(ResultOf(PublishCall(rt, old(running).value)),
                                                   bridge.CurrentException())]
      ensures bridge.State() == AfterModuleCall(rt, old(bridge.State()), "docutils.core", "publish_string",
                                                PublishArgs(old(running).value), Store)
    {
      var result := RenderJob(rt, running.value);
      emitted := emitted + [result];
      running := None;
      if pending.Some? {
        Reschedule();
      }
    }
  }
}
