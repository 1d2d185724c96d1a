/** The audit line built for one execution (audit.py), and the log as an append-only sequence. */
module Audit {
  import opened Prelude
  import opened Contexts
  import opened Hooks

  const REDACTED_TEXT: Value := Text("[REDACTED]")

  /** `metadata` is absent when no key is left to show. */
  datatype Line = Line(
    hook: string,
    impl: string,
    status: Status,
    ms: real,
    traceId: Value,
    spanId: Value,
    sessionId: Value,
    tenantId: Value,
    turn: Value,
    metadata: Option<map<string, Value>>)

  predicate Internal(key: string) {
    "__" <= key
  }

  /** `set(...)` of the redaction list; a list inside it cannot be hashed and raises. */
  function RedactedNames(m: map<string, Value>): Option<set<Value>> {
    match RedactedList(m)
    case None => None
    case Some(xs) => if exists x :: x in xs && x.Items? then None else Some(set x | x in xs)
  }

  function SafeMetadata(m: map<string, Value>, redacted: set<Value>): map<string, Value> {
    map k | k in m && !Internal(k) :: if Text(k) in redacted then REDACTED_TEXT else m[k]
  }

  /** The line for an execution; None if building it raises. */
  function LineOf(e: Execution): Option<Line> {
    var c := e.input;
    match RedactedNames(c.metadata)
    case None => None
    case Some(redacted) =>
      var safe := SafeMetadata(c.metadata, redacted);
      Some(Line(e.hook, e.impl, e.status, e.ms, c.Attr("trace_id"), c.Attr("span_id"), c.Attr("session_id"),
                c.Attr("tenant_id"), c.Attr("turn"), if safe == map[] then None else Some(safe)))
  }

  /** Skips are recorded as metrics but not scheduled for audit. */
  predicate Scheduled(e: Execution) {
    e.status != StSkip
  }

  function ScheduledOf(log: seq<Execution>): seq<Execution> {
    if log == [] then []
    else
      var e := log[|log| - 1];
      ScheduledOf(log[..|log| - 1]) + (if Scheduled(e) then [e] else [])
  }

  function LinesOf(scheduled: seq<Execution>): seq<Line> {
    if scheduled == [] then []
    else
      LinesOf(scheduled[..|scheduled| - 1]) +
      match LineOf(scheduled[|scheduled| - 1])
      case None => []
      case Some(line) => [line]
  }

  function Skips(log: seq<Execution>): nat {
    if log == [] then 0 else Skips(log[..|log| - 1]) + (if log[|log| - 1].status == StSkip then 1 else 0)
  }

  /** Scheduled audit entries are the executions without the skips. */
  lemma {:induction false} ScheduledAreAllButSkips(log: seq<Execution>)
    ensures |ScheduledOf(log)| == |log| - Skips(log)
    ensures forall e :: e in ScheduledOf(log) <==> e in log && Scheduled(e)
  {
    if log == [] {
    } else {
      ScheduledAreAllButSkips(log[..|log| - 1]);
      assert log == log[..|log| - 1] + [log[|log| - 1]];
    }
  }

  /** A redaction list that `set(list(...))` can be built from. */
  predicate ReadableList(m: map<string, Value>) {
    REDACTED_KEY !in m ||
    match m[REDACTED_KEY]
    case Items(xs) => forall x | x in xs :: !x.Items?
    case Text(_) => true
    case _ => false
  }

  /** The executions that the trail can show: not skipped, with a readable redaction list in the input. */
  predicate LeavesLine(e: Execution) {
    e.status != StSkip && ReadableList(e.input.metadata)
  }

  function Audited(log: seq<Execution>): seq<Execution> {
    if log == [] then []
    else
      var e := log[|log| - 1];
      Audited(log[..|log| - 1]) + (if LeavesLine(e) then [e] else [])
  }

  lemma LineExactly(e: Execution)
    ensures Scheduled(e) && LineOf(e).Some? <==> LeavesLine(e)
  {
  }

  lemma LinesSnoc(log: seq<Execution>, e: Execution)
    ensures LinesOf(ScheduledOf(log + [e])) ==
            LinesOf(ScheduledOf(log)) + (if LeavesLine(e) then [LineOf(e).value] else [])
  {
    LineExactly(e);
    assert (log + [e])[..|log|] == log;
    var before := ScheduledOf(log);
    if Scheduled(e) {
      assert (before + [e])[..|before|] == before;
    } else {
      assert ScheduledOf(log + [e]) == before;
    }
  }

  /** The trail has exactly one line, in order, for each execution that was not skipped and whose input has
      a readable redaction list, and none for any other: one execution leaves a line if and only if
      `LeavesLine` holds of it. */
  lemma {:induction false} LinesExactly(log: seq<Execution>)
    ensures |LinesOf(ScheduledOf(log))| == |Audited(log)|
    ensures forall i | 0 <= i < |Audited(log)| :: LineOf(Audited(log)[i]) == Some(LinesOf(ScheduledOf(log))[i])
    ensures forall e :: e in Audited(log) <==> e in log && LeavesLine(e)
  {
    if log == [] {
    } else {
      var n := |log| - 1;
      assert log == log[..n] + [log[n]];
      LinesExactly(log[..n]);
      LinesSnoc(log[..n], log[n]);
      LineExactly(log[n]);
    }
  }

  /** An execution that is no skip and leaves no line: somebody enriched the redaction list away. */
  lemma UnreadableListLeavesNoLine(hook: string, impl: string, ms: real, c: Context)
    ensures var log := [Execution(hook, impl, StOk, ms, Enrich(c, REDACTED_KEY, Num(5)))];
            Skips(log) == 0 && LinesOf(ScheduledOf(log)) == []
  {
    var e := Execution(hook, impl, StOk, ms, Enrich(c, REDACTED_KEY, Num(5)));
    assert [e][..0] == [];
    assert [] + [e] == [e];
    LinesSnoc([], e);
  }

  /** A skipped hook is an execution that leaves no line. */
  lemma SkipLeavesNoLine(hook: string, impl: string, ms: real, c: Context)
    ensures var log := [Execution(hook, impl, StSkip, ms, c)];
            Skips(log) == 1 && LinesOf(ScheduledOf(log)) == []
  {
    var log := [Execution(hook, impl, StSkip, ms, c)];
    assert log[..|log| - 1] == [];
    assert ScheduledOf(log) == ScheduledOf([]) + [];
    assert Skips(log) == Skips([]) + 1;
  }

  /** A line shows a redacted key only as redacted, and a key that begins with two underscores not at all;
      every other key of the input is shown as it is. */
  lemma LineHidesRedacted(e: Execution, key: string)
    requires LineOf(e).Some? && LineOf(e).value.metadata.Some?
    ensures var shown := LineOf(e).value.metadata.value;
            && (key in shown <==> key in e.input.metadata && !("__" <= key))
            && (key in shown && IsRedacted(e.input, key) ==> shown[key] == Text("[REDACTED]"))
            && (key in shown && !IsRedacted(e.input, key) ==> shown[key] == e.input.metadata[key])
  {
  }

  /** A line names the execution and five of the six sealed fields of its input, and shows no metadata exactly
      if there is none to show. */
  lemma LineSays(e: Execution)
    requires LineOf(e).Some?
    ensures var line, c := LineOf(e).value, e.input;
            && line.hook == e.hook && line.impl == e.impl && line.status == e.status && line.ms == e.ms
            && line.traceId == c.Attr("trace_id") && line.spanId == c.Attr("span_id")
            && line.sessionId == c.Attr("session_id") && line.tenantId == c.Attr("tenant_id")
            && line.turn == c.Attr("turn")
            && (line.metadata.None? <==> forall key | key in c.metadata :: "__" <= key)
  {
    var safe := SafeMetadata(e.input.metadata, RedactedNames(e.input.metadata).value);
    if key :| key in e.input.metadata && !("__" <= key) {
      assert key in safe;
    }
  }

  class AuditTrail {
    var lines: seq<Line>
    ghost var scheduled: seq<Execution>

    ghost predicate Valid()
      reads this
    {
      lines == LinesOf(scheduled)
    }

    constructor ()
      ensures Valid() && scheduled == []
    {
      lines, scheduled := [], [];
    }

    /** Never removes or changes a line. */
    method Record(e: Execution)
      requires Valid()
      modifies this
      ensures Valid() && scheduled == old(scheduled) + [e]
      ensures old(lines) <= lines
    {
      scheduled := scheduled + [e];
      assert scheduled[..|scheduled| - 1] == old(scheduled);
      var c := e.input;
      var redacted := RedactedNames(c.metadata);
      if redacted.None? {
        return;
      }
      var entry := Line(e.hook, e.impl, e.status, e.ms, c.Attr("trace_id"), c.Attr("span_id"),
                        c.Attr("session_id"), c.Attr("tenant_id"), c.Attr("turn"), None);
      var safe := SafeMetadata(c.metadata, redacted.value);
      if safe != map[] {
        entry := entry.(metadata := Some(safe));
      }
      lines := lines + [entry];
    }
  }
}
