/** Small shared datatypes. */
module Prelude {
  datatype Option<+T> = None | Some(value: T)

  /** The exceptions that hook code can raise, as the engine tells them apart. */
  datatype Exc =
    | HookBlocked
    | HookSkip
    | TimeoutError
    | SecurityError(field: string)
    | OtherError

  /** The result of evaluating Python code that may raise. */
  datatype Attempt<+T> = Got(value: T) | Threw(exc: Exc)
}

/** The immutable hook context (core/context.py) and its three copying operations. */
module Contexts {
  import opened Prelude

  /** A Python value, as far as the engine looks inside it. */
  datatype Value =
    | Null
    | Num(n: int)
    | Real(r: real)
    | Text(s: string)
    | Items(xs: seq<Value>)
    | Opaque(id: nat)

  const SEALED_FIELDS: set<string> :=
    {"session_id", "tenant_id", "trace_id", "span_id", "turn", "timestamp"}

  const REDACTED_KEY: string := "__redacted__"

  /** Every attribute except `metadata` lives in `attrs` under its own name, sealed or not: only
      `Replace` keeps a hook away from the sealed ones. */
  datatype Context = Context(attrs: map<string, Value>, metadata: map<string, Value>) {
    function Attr(field: string): Value {
      if field in attrs then attrs[field] else Null
    }
  }

  ghost predicate SameSealed(a: Context, b: Context) {
    forall f | f in SEALED_FIELDS :: a.Attr(f) == b.Attr(f)
  }

  function Enrich(c: Context, key: string, value: Value): Context {
    c.(metadata := c.metadata[key := value])
  }

  function Replace(c: Context, field: string, value: Value): Attempt<Context> {
    if field in SEALED_FIELDS then Threw(SecurityError(field))
    else if field == "metadata" then Threw(OtherError)
    else Got(c.(attrs := c.attrs[field := value]))
  }

  /** `list(metadata.get("__redacted__", []))`: a string iterates over its characters, and a value that
      cannot be iterated makes `list` raise. */
  function RedactedList(m: map<string, Value>): Option<seq<Value>> {
    if REDACTED_KEY !in m then Some([])
    else match m[REDACTED_KEY]
      case Items(xs) => Some(xs)
      case Text(s) => Some(seq(|s|, i requires 0 <= i < |s| => Text([s[i]])))
      case _ => None
  }

  predicate IsRedacted(c: Context, name: string) {
    var names := RedactedList(c.metadata);
    names.Some? && Text(name) in names.value
  }

  ghost predicate KeepsRedactions(a: Context, b: Context) {
    forall name :: IsRedacted(a, name) ==> IsRedacted(b, name)
  }

  function Redact(c: Context, names: seq<string>): Attempt<Context> {
    match RedactedList(c.metadata)
    case None => Threw(OtherError)
    case Some(existing) =>
      var added := seq(|names|, i requires 0 <= i < |names| => Text(names[i]));
      Got(Enrich(c, REDACTED_KEY, Items(existing + added)))
  }

  lemma RedactMarks(c: Context, names: seq<string>)
    ensures Redact(c, names).Got? <==> RedactedList(c.metadata).Some?
    ensures Redact(c, names).Got? ==>
              forall name :: IsRedacted(Redact(c, names).value, name) <==> IsRedacted(c, name) || name in names
    ensures Redact(c, names).Got? ==>
              forall k | k != REDACTED_KEY ::
                k in Redact(c, names).value.metadata <==> k in c.metadata
    ensures Redact(c, names).Got? ==>
              forall k | k in c.metadata && k != REDACTED_KEY ::
                Redact(c, names).value.metadata[k] == c.metadata[k]
  {
    match RedactedList(c.metadata)
    case None =>
    case Some(existing) =>
      var added := seq(|names|, i requires 0 <= i < |names| => Text(names[i]));
      var c' := Redact(c, names).value;
      assert RedactedList(c'.metadata) == Some(existing + added);
      forall name ensures IsRedacted(c', name) <==> IsRedacted(c, name) || name in names {
        if name in names {
          var i :| 0 <= i < |names| && names[i] == name;
          assert added[i] == Text(name);
        }
      }
  }

  /** What is redacted, by the kind of the stored value. */
  lemma RedactedExactly(c: Context, name: string)
    ensures REDACTED_KEY !in c.metadata ==> !IsRedacted(c, name)
    ensures REDACTED_KEY in c.metadata ==>
              (IsRedacted(c, name) <==>
               match c.metadata[REDACTED_KEY]
               case Items(xs) => Text(name) in xs
               case Text(s) => exists i :: 0 <= i < |s| && name == [s[i]]
               case _ => false)
    ensures REDACTED_KEY == "__redacted__"
  {
    if REDACTED_KEY in c.metadata && c.metadata[REDACTED_KEY].Text? {
      var s, names := c.metadata[REDACTED_KEY].s, RedactedList(c.metadata).value;
      assert forall i | 0 <= i < |s| :: names[i] == Text([s[i]]);
    }
  }

  /** Replacing one of the six sealed fields raises its name; replacing any other attribute sets it, to be
      read back, and leaves the rest alone. */
  lemma ReplacedExactly(c: Context, field: string, value: Value)
    ensures field in {"session_id", "tenant_id", "trace_id", "span_id", "turn", "timestamp"} <==>
            Replace(c, field, value) == Threw(SecurityError(field))
    ensures field !in {"session_id", "tenant_id", "trace_id", "span_id", "turn", "timestamp", "metadata"} ==>
              && Replace(c, field, value).Got?
              && Replace(c, field, value).value.metadata == c.metadata
              && forall f :: Replace(c, field, value).value.Attr(f) == if f == field then value else c.Attr(f)
    ensures field !in c.attrs ==> c.Attr(field) == Null
  {
  }

  /** Enriching sets one metadata key and leaves everything else alone; redacting appends to the list. */
  lemma EnrichedExactly(c: Context, key: string, value: Value, names: seq<string>)
    ensures Enrich(c, key, value).attrs == c.attrs
    ensures forall k :: k in Enrich(c, key, value).metadata <==> k == key || k in c.metadata
    ensures forall k | k in Enrich(c, key, value).metadata ::
              Enrich(c, key, value).metadata[k] == if k == key then value else c.metadata[k]
    ensures Redact(c, names).Got? ==>
              && Redact(c, names).value.attrs == c.attrs
              && var before, after := RedactedList(c.metadata).value, RedactedList(Redact(c, names).value.metadata);
                 after.Some? && |after.value| == |before| + |names|
                 && (forall i | 0 <= i < |before| :: after.value[i] == before[i])
                 && (forall i | 0 <= i < |names| :: after.value[|before| + i] == Text(names[i]))
    ensures Redact(c, names).Threw? ==> Redact(c, names).exc == OtherError
  {
  }

  /** What a hook body does to the context it was given. */
  datatype Op =
    | Enriching(key: string, value: Value)
    | Replacing(field: string, newValue: Value)
    | Redacting(names: seq<string>)
    | SettingMetadata(entries: map<string, Value>)

  function Apply(op: Op, c: Context): Attempt<Context> {
    match op
    case Enriching(k, v) => Got(Enrich(c, k, v))
    case Replacing(f, v) => Replace(c, f, v)
    case Redacting(names) => Redact(c, names)
    case SettingMetadata(m) => Got(c.(metadata := m))
  }

  function ApplyAll(ops: seq<Op>, c: Context): Attempt<Context> {
    if ops == [] then Got(c)
    else match Apply(ops[0], c)
      case Threw(e) => Threw(e)
      case Got(c') => ApplyAll(ops[1..], c')
  }

  /** A body that makes one call on its context and goes on with the rest, unless the call raises. */
  lemma OneCallThenTheRest(op: Op, ops: seq<Op>, c: Context)
    ensures op.Enriching? ==> ApplyAll([op] + ops, c) == ApplyAll(ops, Enrich(c, op.key, op.value))
    ensures op.Redacting? ==>
              var redacted := Redact(c, op.names);
              ApplyAll([op] + ops, c) == if redacted.Got? then ApplyAll(ops, redacted.value) else redacted
    ensures op.Replacing? ==>
              var replaced := Replace(c, op.field, op.newValue);
              ApplyAll([op] + ops, c) == if replaced.Got? then ApplyAll(ops, replaced.value) else replaced
    ensures op.SettingMetadata? ==> ApplyAll([op] + ops, c) == ApplyAll(ops, Context(c.attrs, op.entries))
    ensures ApplyAll([], c) == Got(c)
  {
    assert ([op] + ops)[1..] == ops;
  }

  /** Operations that respect the redaction list: ordinary keys, redactions, other fields. */
  predicate Ordinary(op: Op) {
    match op
    case Enriching(k, _) => k != REDACTED_KEY
    case Replacing(_, _) => true
    case Redacting(_) => true
    case SettingMetadata(_) => false
  }

  lemma ApplyKeeps(op: Op, c: Context)
    requires Apply(op, c).Got?
    ensures SameSealed(c, Apply(op, c).value)
    ensures Ordinary(op) ==> KeepsRedactions(c, Apply(op, c).value)
  {
    if op.Redacting? {
      RedactMarks(c, op.names);
    }
  }

  /** Whatever a body does through context operations, the sealed fields of the context it returns are
      those it was given; with ordinary operations nothing loses its redaction. */
  lemma {:induction false} ApplyAllKeeps(ops: seq<Op>, c: Context)
    requires ApplyAll(ops, c).Got?
    ensures SameSealed(c, ApplyAll(ops, c).value)
    ensures (forall op | op in ops :: Ordinary(op)) ==> KeepsRedactions(c, ApplyAll(ops, c).value)
  {
    if ops == [] {
    } else {
      ApplyKeeps(ops[0], c);
      ApplyAllKeeps(ops[1..], Apply(ops[0], c).value);
    }
  }

  /** A body that reaches a write to a sealed field raises, whatever else it meant to do. */
  lemma {:induction false} SealedWriteRaises(before: seq<Op>, field: string, value: Value, after: seq<Op>, c: Context)
    ensures field in SEALED_FIELDS ==> ApplyAll(before + [Replacing(field, value)] + after, c).Threw?
  {
    var ops := before + [Replacing(field, value)] + after;
    if before == [] {
      assert ops[0] == Replacing(field, value);
    } else {
      assert ops[0] == before[0];
      assert ops[1..] == before[1..] + [Replacing(field, value)] + after;
      if Apply(before[0], c).Got? {
        SealedWriteRaises(before[1..], field, value, after, Apply(before[0], c).value);
      }
    }
  }

  ghost predicate WritesSealed(ops: seq<Op>) {
    exists i :: 0 <= i < |ops| && ops[i].Replacing? && ops[i].field in SEALED_FIELDS
  }

  /** Context operations never raise HookBlocked or HookSkip, and with a write to a sealed field among them
      they always raise. */
  lemma {:induction false} OpsThrow(ops: seq<Op>, c: Context)
    ensures ApplyAll(ops, c).Threw? ==> ApplyAll(ops, c).exc.SecurityError? || ApplyAll(ops, c).exc == OtherError
    ensures WritesSealed(ops) ==> ApplyAll(ops, c).Threw?
  {
    if ops == [] {
    } else if Apply(ops[0], c).Got? {
      OpsThrow(ops[1..], Apply(ops[0], c).value);
      if WritesSealed(ops) {
        var i :| 0 <= i < |ops| && ops[i].Replacing? && ops[i].field in SEALED_FIELDS;
        assert i > 0 && ops[1..][i - 1] == ops[i];
      }
    }
  }
}
