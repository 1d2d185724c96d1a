/** Contract versions and version ranges (core/contract.py). */
module Contracts {
  import opened Prelude
  import opened Sorting

  // ----- Strings -----

  function DigitValue(c: char): nat {
    if IsDigit(c) then (c - '0') as nat else 0
  }

  predicate IsDigit(c: char) {
    '0' <= c <= '9'
  }

  predicate IsSpace(c: char) {
    c == ' ' || '\t' <= c <= '\r' || '\U{001C}' <= c <= '\U{001F}'
  }

  predicate AllDigits(s: string) {
    forall i | 0 <= i < |s| :: IsDigit(s[i])
  }

  /** The length of the longest prefix of digits. */
  function DigitRun(s: string): (n: nat)
    ensures n <= |s|
  {
    if s == [] || !IsDigit(s[0]) then 0 else 1 + DigitRun(s[1..])
  }

  function ToNat(s: string): nat {
    if s == [] then 0 else 10 * ToNat(s[..|s| - 1]) + DigitValue(s[|s| - 1])
  }

  function FromNat(n: nat): (s: string)
    ensures s != [] && AllDigits(s)
  {
    (if n < 10 then [] else FromNat(n / 10)) + ['0' + (n % 10) as char]
  }

  function TrimLeft(s: string): string {
    if s != [] && IsSpace(s[0]) then TrimLeft(s[1..]) else s
  }

  function TrimRight(s: string): string {
    if s != [] && IsSpace(s[|s| - 1]) then TrimRight(s[..|s| - 1]) else s
  }

  function Strip(s: string): string {
    TrimRight(TrimLeft(s))
  }

  /** One more character in front of a split string. */
  function Push(c: char, pieces: seq<string>): (r: seq<string>)
    requires pieces != []
    ensures r != []
  {
    if c == ',' then [[]] + pieces else [[c] + pieces[0]] + pieces[1..]
  }

  /** `s.split(",")`: always at least one piece. */
  function Split(s: string): (pieces: seq<string>)
    ensures pieces != []
  {
    if s == [] then [[]] else Push(s[0], Split(s[1..]))
  }

  // ----- Versions -----

  datatype Version = Version(major: nat, minor: nat)

  predicate Before(a: Version, b: Version) {
    a.major < b.major || (a.major == b.major && a.minor < b.minor)
  }

  predicate AtMost(a: Version, b: Version) {
    a == b || Before(a, b)
  }

  /** `fullmatch(r"(\d+)\.(\d+)", s)`. */
  function MatchVersion(s: string): Option<Version> {
    var n := DigitRun(s);
    if n == 0 || n == |s| || s[n] != '.' then None
    else
      var minor := s[n + 1..];
      if minor != [] && DigitRun(minor) == |minor| then Some(Version(ToNat(s[..n]), ToNat(minor))) else None
  }

  /** `ContractVersion(s)`; None is its ValueError. */
  function Parse(s: string): Option<Version> {
    MatchVersion(Strip(s))
  }

  function Print(v: Version): string {
    FromNat(v.major) + "." + FromNat(v.minor)
  }

  lemma {:induction false} ToNatOfFromNat(n: nat)
    ensures ToNat(FromNat(n)) == n
  {
    var s := FromNat(n);
    var last := '0' + (n % 10) as char;
    assert s[|s| - 1] == last && DigitValue(last) == n % 10;
    if n < 10 {
      assert s[..|s| - 1] == [];
    } else {
      assert s[..|s| - 1] == FromNat(n / 10);
      ToNatOfFromNat(n / 10);
    }
  }

  lemma {:induction false} RunOfDigits(digits: string, rest: string)
    requires AllDigits(digits) && (rest != [] ==> !IsDigit(rest[0]))
    ensures DigitRun(digits + rest) == |digits|
  {
    if digits == [] {
      assert digits + rest == rest;
    } else {
      assert (digits + rest)[0] == digits[0];
      assert (digits + rest)[1..] == digits[1..] + rest;
      RunOfDigits(digits[1..], rest);
    }
  }

  lemma MatchPrinted(v: Version)
    ensures MatchVersion(Print(v)) == Some(v)
  {
    var major, minor := FromNat(v.major), FromNat(v.minor);
    var s := Print(v);
    assert s == major + ("." + minor);
    RunOfDigits(major, "." + minor);
    assert s[..|major|] == major;
    assert s[|major| + 1..] == minor;
    assert minor + [] == minor;
    RunOfDigits(minor, []);
    ToNatOfFromNat(v.major);
    ToNatOfFromNat(v.minor);
  }

  lemma TrimKeeps(s: string)
    requires s != [] && !IsSpace(s[0]) && !IsSpace(s[|s| - 1])
    ensures Strip(s) == s
  {
  }

  lemma PrintedEnds(v: Version)
    ensures var s := Print(v); s != [] && IsDigit(s[0]) && IsDigit(s[|s| - 1])
    ensures forall i | 0 <= i < |Print(v)| :: Print(v)[i] == '.' || IsDigit(Print(v)[i])
  {
    var major, minor := FromNat(v.major), FromNat(v.minor);
    var s := Print(v);
    assert s[0] == major[0];
    assert s[|s| - 1] == minor[|minor| - 1];
  }

  /** Parsing a printed version returns it. */
  lemma ParsePrinted(v: Version)
    ensures Parse(Print(v)) == Some(v)
  {
    PrintedEnds(v);
    TrimKeeps(Print(v));
    MatchPrinted(v);
  }

  // ----- Which strings are versions -----

  predicate White(c: char) {
    c in {' ', '\t', '\n', '\U{000B}', '\U{000C}', '\r', '\U{001C}', '\U{001D}', '\U{001E}', '\U{001F}'}
  }

  predicate Blank(s: string) {
    forall i | 0 <= i < |s| :: White(s[i])
  }

  predicate Bare(s: string) {
    s != [] ==> !White(s[0]) && !White(s[|s| - 1])
  }

  lemma SpaceIsWhite(c: char)
    ensures IsSpace(c) <==> White(c)
  {
  }

  lemma BlankEnds(s: string)
    requires s != [] && Blank(s)
    ensures IsSpace(s[0]) && IsSpace(s[|s| - 1]) && Blank(s[1..]) && Blank(s[..|s| - 1])
  {
    SpaceIsWhite(s[0]);
    SpaceIsWhite(s[|s| - 1]);
  }

  lemma {:induction false} TrimLeftSplits(s: string) returns (p: string)
    ensures s == p + TrimLeft(s) && Blank(p)
    ensures TrimLeft(s) != [] ==> !IsSpace(TrimLeft(s)[0])
  {
    if s == [] || !IsSpace(s[0]) {
      p := [];
    } else {
      var rest := TrimLeftSplits(s[1..]);
      SpaceIsWhite(s[0]);
      p := [s[0]] + rest;
      assert s == [s[0]] + s[1..];
    }
  }

  lemma {:induction false} TrimRightSplits(s: string) returns (q: string)
    ensures s == TrimRight(s) + q && Blank(q)
    ensures TrimRight(s) != [] ==> !IsSpace(TrimRight(s)[|TrimRight(s)| - 1])
  {
    if s == [] || !IsSpace(s[|s| - 1]) {
      q := [];
    } else {
      var n := |s| - 1;
      var front := s[..n];
      var rest := TrimRightSplits(front);
      SpaceIsWhite(s[n]);
      q := rest + [s[n]];
      assert s == front + [s[n]];
      assert TrimRight(front) + q == front + [s[n]];
    }
  }

  lemma {:induction false} TrimLeftSkips(p: string, s: string)
    requires Blank(p) && (s != [] ==> !IsSpace(s[0]))
    ensures TrimLeft(p + s) == s
  {
    if p == [] {
      assert p + s == s;
    } else {
      BlankEnds(p);
      assert (p + s)[1..] == p[1..] + s;
      TrimLeftSkips(p[1..], s);
    }
  }

  lemma {:induction false} TrimRightSkips(s: string, q: string)
    requires Blank(q) && (s != [] ==> !IsSpace(s[|s| - 1]))
    ensures TrimRight(s + q) == s
  {
    if q == [] {
      assert s + q == s;
    } else {
      var n := |q| - 1;
      BlankEnds(q);
      assert (s + q)[..|s + q| - 1] == s + q[..n];
      TrimRightSkips(s, q[..n]);
    }
  }

  ghost predicate Padded(s: string, t: string, p: string, q: string) {
    s == p + t + q && Blank(p) && Blank(q)
  }

  lemma StripTakesOff(s: string, t: string, p: string, q: string)
    requires Padded(s, t, p, q) && Bare(t)
    ensures Strip(s) == t
  {
    assert s == p + (t + q);
    if t == [] {
      assert s == (p + q) + [] && Blank(p + q);
      TrimLeftSkips(p + q, []);
    } else {
      SpaceIsWhite(t[0]);
      SpaceIsWhite(t[|t| - 1]);
      TrimLeftSkips(p, t + q);
      TrimRightSkips(t, q);
    }
  }

  /** Stripping takes off white space at both ends, all of it, and nothing else. */
  lemma StripExactly(s: string, t: string)
    ensures Strip(s) == t <==> Bare(t) && exists p, q :: Padded(s, t, p, q)
  {
    if Strip(s) == t {
      var p := TrimLeftSplits(s);
      var u := TrimLeft(s);
      var q := TrimRightSplits(u);
      assert Padded(s, t, p, q);
      if t != [] {
        assert t[0] == u[0];
        SpaceIsWhite(t[0]);
        SpaceIsWhite(t[|t| - 1]);
      }
    }
    if Bare(t) && exists p, q :: Padded(s, t, p, q) {
      var p, q :| Padded(s, t, p, q);
      StripTakesOff(s, t, p, q);
    }
  }

  /** Two non-empty strings of digits with a dot between them. */
  ghost predicate Spells(s: string, a: string, b: string) {
    s == a + "." + b && a != [] && b != [] && AllDigits(a) && AllDigits(b)
  }

  lemma {:induction false} RunIsDigits(s: string)
    ensures AllDigits(s[..DigitRun(s)])
    ensures DigitRun(s) < |s| ==> !IsDigit(s[DigitRun(s)])
  {
    if s == [] || !IsDigit(s[0]) {
    } else {
      RunIsDigits(s[1..]);
      var n := DigitRun(s[1..]);
      assert s[..n + 1] == [s[0]] + s[1..][..n];
    }
  }

  lemma MatchSpelled(s: string, a: string, b: string)
    requires Spells(s, a, b)
    ensures MatchVersion(s) == Some(Version(ToNat(a), ToNat(b)))
  {
    assert s == a + ("." + b);
    RunOfDigits(a, "." + b);
    assert s[..|a|] == a && s[|a| + 1..] == b;
    assert b + [] == b;
    RunOfDigits(b, []);
  }

  lemma SpellMatched(s: string) returns (a: string, b: string)
    requires MatchVersion(s).Some?
    ensures Spells(s, a, b) && MatchVersion(s) == Some(Version(ToNat(a), ToNat(b)))
  {
    var n := DigitRun(s);
    a, b := s[..n], s[n + 1..];
    RunIsDigits(s);
    RunIsDigits(b);
    assert b[..|b|] == b;
    assert s == a + [s[n]] + b;
  }

  /** Exactly the strings of two digit runs with a dot between them, in white space, are versions; major and
      minor are the numbers that the digits before and after the dot denote. */
  lemma ParseExactly(s: string, v: Version)
    ensures Parse(s) == Some(v) <==>
            exists t, a, b, p, q ::
              Padded(s, t, p, q) && Spells(t, a, b) && v == Version(ToNat(a), ToNat(b))
  {
    StripExactly(s, Strip(s));
    if Parse(s) == Some(v) {
      var a, b := SpellMatched(Strip(s));
      var p, q :| Padded(s, Strip(s), p, q);
    }
    if t, a, b, p, q :| Padded(s, t, p, q) && Spells(t, a, b) && v == Version(ToNat(a), ToNat(b)) {
      assert IsDigit(t[0]) by { assert t[0] == a[0]; }
      assert IsDigit(t[|t| - 1]) by { assert t[|t| - 1] == b[|b| - 1]; }
      SpaceIsWhite(t[0]);
      SpaceIsWhite(t[|t| - 1]);
      StripTakesOff(s, t, p, q);
      MatchSpelled(t, a, b);
    }
  }

  lemma {:induction false} ToNatIsPositive(s: string)
    requires AllDigits(s) && s != [] && s[0] != '0'
    ensures ToNat(s) > 0
  {
    var n := |s| - 1;
    if n == 0 {
      assert s[..n] == [];
    } else {
      ToNatIsPositive(s[..n]);
    }
  }

  lemma {:induction false} LeadingZero(s: string)
    ensures ToNat("0" + s) == ToNat(s)
  {
    if s == [] {
      assert "0" + s == "0" && "0"[..0] == [];
    } else {
      var n := |s| - 1;
      assert ("0" + s)[..n + 1] == "0" + s[..n];
      LeadingZero(s[..n]);
    }
  }

  lemma LastDigit(n: nat, c: char)
    requires IsDigit(c)
    ensures (10 * n + DigitValue(c)) / 10 == n && (10 * n + DigitValue(c)) % 10 == DigitValue(c)
    ensures '0' + DigitValue(c) as char == c
  {
  }

  lemma {:induction false} PrintsBack(s: string)
    requires AllDigits(s) && s != [] && (s[0] != '0' || |s| == 1)
    ensures FromNat(ToNat(s)) == s
  {
    var n := |s| - 1;
    var front := s[..n];
    assert s == front + [s[n]];
    LastDigit(ToNat(front), s[n]);
    if n == 0 {
      assert front == [];
    } else {
      PrintsBack(front);
      ToNatIsPositive(front);
    }
  }

  /** Digits denote the decimal number whose digits they are: leading zeros do not count, and without them
      the number is printed as these digits. */
  lemma DigitsExactly(s: string)
    requires AllDigits(s) && s != []
    ensures ToNat("0" + s) == ToNat(s)
    ensures s[0] != '0' || |s| == 1 ==> FromNat(ToNat(s)) == s
  {
    LeadingZero(s);
    if s[0] != '0' || |s| == 1 {
      PrintsBack(s);
    }
  }

  // ----- Ranges -----

  datatype Operator = GE | LE | GT | LT | EQ

  datatype Clause = Clause(op: Operator, bound: Version)

  /** `(>=|<=|>|<|==)?(\d+\.\d+)`: since a version starts with a digit, at most one choice can match. */
  function SplitOperator(s: string): (Operator, string) {
    if ">=" <= s then (GE, s[2..])
    else if "<=" <= s then (LE, s[2..])
    else if ">" <= s then (GT, s[1..])
    else if "<" <= s then (LT, s[1..])
    else if "==" <= s then (EQ, s[2..])
    else (EQ, s)
  }

  function MatchClause(s: string): Option<Clause> {
    var (op, rest) := SplitOperator(s);
    match MatchVersion(rest)
    case None => None
    case Some(v) => Some(Clause(op, v))
  }

  predicate Holds(c: Clause, v: Version) {
    match c.op
    case GE => AtMost(c.bound, v)
    case LE => AtMost(v, c.bound)
    case GT => Before(c.bound, v)
    case LT => Before(v, c.bound)
    case EQ => v == c.bound
  }

  /** True, False, or a ValueError. */
  datatype Verdict = Compatible | Incompatible | Malformed

  function CheckClause(s: string, v: Version): Verdict {
    match MatchClause(s)
    case None => Malformed
    case Some(c) => if Holds(c, v) then Compatible else Incompatible
  }

  /** The loop over the clauses, with its early exits. */
  function CheckClauses(clauses: seq<string>, v: Version): Verdict {
    if clauses == [] then Compatible
    else
      var first := CheckClause(Strip(clauses[0]), v);
      if first == Compatible then CheckClauses(clauses[1..], v) else first
  }

  function CheckRange(required: string, v: Version): Verdict {
    CheckClauses(Split(required), v)
  }

  /** `check_compatibility(required, got)`. */
  function CheckCompatibility(required: Option<string>, got: Option<string>): Verdict {
    if required.None? then Compatible
    else if got.None? then Incompatible
    else match Parse(got.value)
      case None => Malformed
      case Some(v) => CheckRange(required.value, v)
  }

  function AndThen(first: Verdict, second: Verdict): Verdict {
    if first == Compatible then second else first
  }

  lemma PushAppend(c: char, ra: seq<string>, rb: seq<string>)
    requires ra != []
    ensures Push(c, ra + rb) == Push(c, ra) + rb
  {
  }

  lemma SplitCons(c: char, s: string)
    ensures Split([c] + s) == Push(c, Split(s))
  {
    assert ([c] + s)[1..] == s;
  }

  lemma {:induction false} SplitJoin(a: string, b: string)
    ensures Split(a + ([','] + b)) == Split(a) + Split(b)
  {
    if a == [] {
      SplitCons(',', b);
      assert a + ([','] + b) == [','] + b;
    } else {
      calc {
        Split(a + ([','] + b));
        { assert a + ([','] + b) == [a[0]] + (a[1..] + ([','] + b)); }
        Split([a[0]] + (a[1..] + ([','] + b)));
        { SplitCons(a[0], a[1..] + ([','] + b)); }
        Push(a[0], Split(a[1..] + ([','] + b)));
        { SplitJoin(a[1..], b); }
        Push(a[0], Split(a[1..]) + Split(b));
        { PushAppend(a[0], Split(a[1..]), Split(b)); }
        Push(a[0], Split(a[1..])) + Split(b);
        Split(a) + Split(b);
      }
    }
  }

  lemma {:induction false} ClausesAppend(s: seq<string>, t: seq<string>, v: Version)
    ensures CheckClauses(s + t, v) == AndThen(CheckClauses(s, v), CheckClauses(t, v))
  {
    if s == [] {
      assert s + t == t;
    } else {
      assert (s + t)[0] == s[0] && (s + t)[1..] == s[1..] + t;
      ClausesAppend(s[1..], t, v);
    }
  }

  /** Joining two ranges with a comma checks the first and then, if it accepts, the second: for any
      strings at all, malformed ones included. */
  lemma JoinIsConjunction(a: string, b: string, v: Version)
    ensures CheckRange(a + "," + b, v) == AndThen(CheckRange(a, v), CheckRange(b, v))
  {
    assert a + "," + b == a + ([','] + b);
    SplitJoin(a, b);
    ClausesAppend(Split(a), Split(b), v);
  }

  ghost predicate WellFormed(clauses: seq<string>) {
    forall i | 0 <= i < |clauses| :: MatchClause(Strip(clauses[i])).Some?
  }

  ghost predicate AllAccept(clauses: seq<string>, v: Version) {
    forall s | s in clauses :: CheckClause(Strip(s), v) == Compatible
  }

  lemma AllAcceptCons(clauses: seq<string>, v: Version)
    requires clauses != []
    ensures AllAccept(clauses, v) <==> CheckClause(Strip(clauses[0]), v) == Compatible && AllAccept(clauses[1..], v)
  {
    assert clauses == [clauses[0]] + clauses[1..];
  }

  /** A well-formed range accepts a version exactly when every clause does, and otherwise says no. */
  lemma {:induction false} WellFormedVerdict(clauses: seq<string>, v: Version)
    requires WellFormed(clauses)
    ensures CheckClauses(clauses, v) == if AllAccept(clauses, v) then Compatible else Incompatible
  {
    if clauses == [] {
    } else {
      assert MatchClause(Strip(clauses[0])).Some?;
      AllAcceptCons(clauses, v);
      WellFormedVerdict(clauses[1..], v);
    }
  }

  /** The order of well-formed clauses is irrelevant, and so is repeating them. */
  lemma ClauseOrderIsIrrelevant(s: seq<string>, t: seq<string>, v: Version)
    requires WellFormed(s) && WellFormed(t)
    requires forall c :: c in s <==> c in t
    ensures CheckClauses(s, v) == CheckClauses(t, v)
  {
    WellFormedVerdict(s, v);
    WellFormedVerdict(t, v);
  }

  /** The first clause that does not accept fixes the outcome, whatever stands after it. */
  lemma {:induction false} FirstFailureDecides(clauses: seq<string>, v: Version, i: nat)
    requires i < |clauses|
    requires forall j | 0 <= j < i :: CheckClause(Strip(clauses[j]), v) == Compatible
    requires CheckClause(Strip(clauses[i]), v) != Compatible
    ensures CheckClauses(clauses, v) == CheckClause(Strip(clauses[i]), v)
  {
    if i == 0 {
    } else {
      assert CheckClause(Strip(clauses[0]), v) == Compatible;
      assert clauses[1..][i - 1] == clauses[i];
      forall j | 0 <= j < i - 1 ensures CheckClause(Strip(clauses[1..][j]), v) == Compatible {
        assert clauses[1..][j] == clauses[j + 1];
      }
      FirstFailureDecides(clauses[1..], v, i - 1);
    }
  }

  lemma OneClause(s: string, v: Version)
    ensures CheckClauses([s], v) == CheckClause(Strip(s), v)
  {
    var clauses: seq<string> := [s];
    assert clauses[1..] == [];
  }

  /** The loop accepts if and only if every clause does, and otherwise its outcome is that of some clause. */
  lemma {:induction false} SomeClauseDecides(clauses: seq<string>, v: Version)
    ensures CheckClauses(clauses, v) == Compatible <==> AllAccept(clauses, v)
    ensures CheckClauses(clauses, v) != Compatible ==> Fails(clauses, v, CheckClauses(clauses, v))
  {
    if clauses == [] {
    } else {
      AllAcceptCons(clauses, v);
      SomeClauseDecides(clauses[1..], v);
      assert clauses == [clauses[0]] + clauses[1..];
      if CheckClause(Strip(clauses[0]), v) == Compatible && CheckClauses(clauses[1..], v) != Compatible {
        var c :| c in clauses[1..] && CheckClause(Strip(c), v) == CheckClauses(clauses[1..], v);
        assert c in clauses;
      }
    }
  }

  /** Some clause comes out as `how`. */
  ghost predicate Fails(clauses: seq<string>, v: Version, how: Verdict) {
    exists c :: c in clauses && CheckClause(Strip(c), v) == how
  }

  ghost predicate OrderIrrelevant(clauses: seq<string>, v: Version) {
    forall p | Permutation(p, |clauses|) :: CheckClauses(Arrange(clauses, p), v) == CheckClauses(clauses, v)
  }

  /** Without a malformed clause beside one that says no, all failing clauses fail alike. */
  lemma AlikeInEveryOrder(clauses: seq<string>, arranged: seq<string>, v: Version)
    requires forall c :: c in arranged <==> c in clauses
    requires !(Fails(clauses, v, Malformed) && Fails(clauses, v, Incompatible))
    ensures CheckClauses(arranged, v) == CheckClauses(clauses, v)
  {
    SomeClauseDecides(clauses, v);
    SomeClauseDecides(arranged, v);
    assert AllAccept(arranged, v) <==> AllAccept(clauses, v);
    assert forall how :: Fails(arranged, v, how) <==> Fails(clauses, v, how);
  }

  /** In the order that puts clause i first, clause i decides unless it accepts. */
  lemma FirstOneDecides(clauses: seq<string>, v: Version, i: nat)
    requires i < |clauses| && CheckClause(Strip(clauses[i]), v) != Compatible
    ensures Permutation(MoveFirst(|clauses|, i), |clauses|)
    ensures CheckClauses(Arrange(clauses, MoveFirst(|clauses|, i)), v) == CheckClause(Strip(clauses[i]), v)
  {
    MoveFirstPermutes(|clauses|, i);
    assert Arrange(clauses, MoveFirst(|clauses|, i))[0] == clauses[i];
  }

  lemma MalformedExactly(clause: string, v: Version)
    ensures CheckClause(Strip(clause), v) == Malformed <==> MatchClause(Strip(clause)).None?
  {
  }

  /** The order of any clauses is irrelevant exactly unless one is malformed and another says no: then one
      order says no and another is a ValueError. */
  lemma OrderIrrelevantExactly(clauses: seq<string>, v: Version)
    ensures OrderIrrelevant(clauses, v) <==>
            !((exists c :: c in clauses && MatchClause(Strip(c)).None?) &&
              (exists c :: c in clauses && CheckClause(Strip(c), v) == Incompatible))
  {
    forall c ensures CheckClause(Strip(c), v) == Malformed <==> MatchClause(Strip(c)).None? {
      MalformedExactly(c, v);
    }
    if Fails(clauses, v, Malformed) && Fails(clauses, v, Incompatible) {
      var i :| 0 <= i < |clauses| && CheckClause(Strip(clauses[i]), v) == Malformed;
      var j :| 0 <= j < |clauses| && CheckClause(Strip(clauses[j]), v) == Incompatible;
      FirstOneDecides(clauses, v, i);
      FirstOneDecides(clauses, v, j);
    } else {
      forall p | Permutation(p, |clauses|)
        ensures CheckClauses(Arrange(clauses, p), v) == CheckClauses(clauses, v)
      {
        ArrangeKeepsMembers(clauses, p);
        AlikeInEveryOrder(clauses, Arrange(clauses, p), v);
      }
    }
  }

  /** Swapping two clauses can change the outcome exactly when one of them is malformed and the other
      does not accept; it then turns a no into a ValueError or back. */
  lemma SwapMatters(a: string, b: string, v: Version)
    ensures var x, y := CheckClause(Strip(a), v), CheckClause(Strip(b), v);
            CheckClauses([a, b], v) != CheckClauses([b, a], v) <==>
            (MatchClause(Strip(a)).None? && y == Incompatible) || (MatchClause(Strip(b)).None? && x == Incompatible)
  {
    assert [a, b][1..] == [b] && [b, a][1..] == [a];
    OneClause(a, v);
    OneClause(b, v);
  }

  lemma {:induction false} ClausesConvex(clauses: seq<string>, lo: Version, mid: Version, hi: Version)
    requires AtMost(lo, mid) && AtMost(mid, hi)
    requires CheckClauses(clauses, lo) == Compatible && CheckClauses(clauses, hi) == Compatible
    ensures CheckClauses(clauses, mid) == Compatible
  {
    if clauses == [] {
    } else {
      ClausesConvex(clauses[1..], lo, mid, hi);
    }
  }

  /** What a range accepts is convex in the lexicographic order. */
  lemma RangeIsConvex(required: string, lo: Version, mid: Version, hi: Version)
    requires AtMost(lo, mid) && AtMost(mid, hi)
    requires CheckRange(required, lo) == Compatible && CheckRange(required, hi) == Compatible
    ensures CheckRange(required, mid) == Compatible
  {
    ClausesConvex(Split(required), lo, mid, hi);
  }

  lemma {:induction false} SplitWithoutComma(s: string)
    requires forall i | 0 <= i < |s| :: s[i] != ','
    ensures Split(s) == [s]
  {
    if s == [] {
    } else {
      SplitWithoutComma(s[1..]);
      assert s == [s[0]] + s[1..];
      SplitCons(s[0], s[1..]);
    }
  }

  function PrintOperator(op: Operator): string {
    match op
    case GE => ">="
    case LE => "<="
    case GT => ">"
    case LT => "<"
    case EQ => "=="
  }

  lemma OperatorIsSplitOff(op: Operator, s: string)
    requires s != [] && IsDigit(s[0])
    ensures SplitOperator(PrintOperator(op) + s) == (op, s)
    ensures SplitOperator(s) == (EQ, s)
  {
    var p := PrintOperator(op);
    assert (p + s)[|p|..] == s;
    assert (p + s)[0] == p[0];
    assert (p + s)[1] == if |p| == 2 then p[1] else s[0];
  }

  predicate Plain(s: string) {
    s != [] && forall i | 0 <= i < |s| :: s[i] != ',' && !IsSpace(s[i])
  }

  lemma PlainIsOneClause(s: string)
    requires Plain(s)
    ensures Split(s) == [s] && Strip(s) == s
  {
    SplitWithoutComma(s);
    TrimKeeps(s);
  }

  /** A string that reads as a version and has neither commas nor spaces. */
  predicate ReadsAs(s: string, u: Version) {
    Plain(s) && IsDigit(s[0]) && MatchVersion(s) == Some(u)
  }

  lemma PrintedReads(u: Version)
    ensures ReadsAs(Print(u), u)
  {
    PrintedEnds(u);
    MatchPrinted(u);
  }

  lemma PlainAppend(p: string, s: string)
    requires Plain(p) && Plain(s)
    ensures Plain(p + s)
  {
  }

  lemma RangeText(op: Operator, s: string, u: Version)
    requires ReadsAs(s, u)
    ensures var r := PrintOperator(op) + s;
            Split(r) == [r] && Strip(r) == r && MatchClause(r) == Some(Clause(op, u))
    ensures Split(s) == [s] && Strip(s) == s && MatchClause(s) == Some(Clause(EQ, u))
  {
    OperatorIsSplitOff(op, s);
    PlainAppend(PrintOperator(op), s);
    PlainIsOneClause(PrintOperator(op) + s);
    PlainIsOneClause(s);
  }

  lemma OneClauseRange(op: Operator, s: string, u: Version, got: string, v: Version)
    requires ReadsAs(s, u) && Parse(got) == Some(v)
    ensures CheckCompatibility(Some(PrintOperator(op) + s), Some(got)) ==
            if Holds(Clause(op, u), v) then Compatible else Incompatible
    ensures CheckCompatibility(Some(s), Some(got)) == if u == v then Compatible else Incompatible
  {
    RangeText(op, s, u);
    OneClause(PrintOperator(op) + s, v);
    OneClause(s, v);
  }

  /** A printed version used as a range pins that version, and an operator in front of it bounds the
      versions accepted. */
  lemma PrintedRange(op: Operator, u: Version, v: Version)
    ensures CheckCompatibility(Some(PrintOperator(op) + Print(u)), Some(Print(v))) ==
            if Holds(Clause(op, u), v) then Compatible else Incompatible
    ensures CheckCompatibility(Some(Print(u)), Some(Print(v))) == if u == v then Compatible else Incompatible
  {
    PrintedReads(u);
    ParsePrinted(v);
    OneClauseRange(op, Print(u), u, Print(v), v);
  }

  lemma HoldsOnNumbers(u: Version, v: Version)
    ensures Before(u, v) <==> u.major < v.major || (u.major == v.major && u.minor < v.minor)
    ensures AtMost(u, v) <==> u.major < v.major || (u.major == v.major && u.minor <= v.minor)
  {
  }

  /** What each operator accepts, on the numbers: major decides before minor. */
  lemma OperatorsOnNumbers(u: Version, v: Version)
    ensures CheckCompatibility(Some(">=" + Print(u)), Some(Print(v))) == Compatible <==>
            v.major > u.major || (v.major == u.major && v.minor >= u.minor)
    ensures CheckCompatibility(Some("<=" + Print(u)), Some(Print(v))) == Compatible <==>
            v.major < u.major || (v.major == u.major && v.minor <= u.minor)
    ensures CheckCompatibility(Some(">" + Print(u)), Some(Print(v))) == Compatible <==>
            v.major > u.major || (v.major == u.major && v.minor > u.minor)
    ensures CheckCompatibility(Some("<" + Print(u)), Some(Print(v))) == Compatible <==>
            v.major < u.major || (v.major == u.major && v.minor < u.minor)
    ensures CheckCompatibility(Some("==" + Print(u)), Some(Print(v))) == Compatible <==>
            v.major == u.major && v.minor == u.minor
    ensures CheckCompatibility(Some(Print(u)), Some(Print(v))) == Compatible <==>
            v.major == u.major && v.minor == u.minor
  {
    HoldsOnNumbers(u, v);
    HoldsOnNumbers(v, u);
    PrintedRange(GE, u, v);
    PrintedRange(LE, u, v);
    PrintedRange(GT, u, v);
    PrintedRange(LT, u, v);
    PrintedRange(EQ, u, v);
  }

  lemma VersionStartsWithDigit(s: string)
    requires MatchVersion(s).Some?
    ensures s != [] && IsDigit(s[0])
  {
    var a, b := SpellMatched(s);
    assert s[0] == a[0];
  }

  ghost predicate Writes(s: string, op: Operator, t: string) {
    s == PrintOperator(op) + t || (op == EQ && s == t)
  }

  /** A clause is an operator and then a version with nothing between them, or a version alone for `==`. */
  lemma ClauseExactly(s: string, op: Operator, u: Version)
    ensures MatchClause(s) == Some(Clause(op, u)) <==> exists t :: Writes(s, op, t) && MatchVersion(t) == Some(u)
  {
    if MatchClause(s) == Some(Clause(op, u)) {
      var t := SplitOperator(s).1;
      assert Writes(s, op, t);
    }
    if t :| Writes(s, op, t) && MatchVersion(t) == Some(u) {
      VersionStartsWithDigit(t);
      OperatorIsSplitOff(op, t);
    }
  }

  /** Nothing required is always met; something required is not met by nothing; a malformed version is an
      error before the range is looked at. */
  lemma AbsentStrings(required: Option<string>, got: Option<string>)
    ensures required == None ==> CheckCompatibility(required, got) == Compatible
    ensures required != None && got == None ==> CheckCompatibility(required, got) == Incompatible
    ensures required != None && got != None && Parse(got.value) == None ==>
              CheckCompatibility(required, got) == Malformed
    ensures required != None && got != None && Parse(got.value) != None ==>
              CheckCompatibility(required, got) == CheckRange(required.value, Parse(got.value).value)
  {
  }

  /** Opposite operators accept opposite versions, and `==` accepts what `>=` and `<=` both accept. */
  lemma OperatorsComplement(u: Version, v: Version)
    ensures CheckCompatibility(Some(">" + Print(u)), Some(Print(v))) == Compatible <==>
            CheckCompatibility(Some("<=" + Print(u)), Some(Print(v))) == Incompatible
    ensures CheckCompatibility(Some("<" + Print(u)), Some(Print(v))) == Compatible <==>
            CheckCompatibility(Some(">=" + Print(u)), Some(Print(v))) == Incompatible
    ensures CheckCompatibility(Some("==" + Print(u)), Some(Print(v))) == Compatible <==>
            CheckCompatibility(Some(">=" + Print(u)), Some(Print(v))) == Compatible &&
            CheckCompatibility(Some("<=" + Print(u)), Some(Print(v))) == Compatible
    ensures CheckCompatibility(Some("<" + Print(u)), Some(Print(v))) == Compatible <==>
            CheckCompatibility(Some(">" + Print(v)), Some(Print(u))) == Compatible
  {
    PrintedRange(GT, u, v);
    PrintedRange(LE, u, v);
    PrintedRange(LT, u, v);
    PrintedRange(GE, u, v);
    PrintedRange(EQ, u, v);
    PrintedRange(GT, v, u);
  }

  function Join(clauses: seq<string>): string
    requires clauses != []
  {
    if |clauses| == 1 then clauses[0] else clauses[0] + "," + Join(clauses[1..])
  }

  ghost predicate Commaless(pieces: seq<string>) {
    forall i, k | 0 <= i < |pieces| && 0 <= k < |pieces[i]| :: pieces[i][k] != ','
  }

  lemma JoinPushed(c: char, pieces: seq<string>)
    requires pieces != []
    ensures Join(Push(c, pieces)) == [c] + Join(pieces)
  {
    if c == ',' {
      assert Push(c, pieces)[1..] == pieces;
    } else {
      assert Push(c, pieces)[1..] == pieces[1..];
    }
  }

  lemma {:induction false} SplitJoins(s: string)
    ensures Join(Split(s)) == s && Commaless(Split(s))
  {
    if s == [] {
    } else {
      SplitJoins(s[1..]);
      JoinPushed(s[0], Split(s[1..]));
    }
  }

  lemma {:induction false} JoinSplits(pieces: seq<string>)
    requires pieces != [] && Commaless(pieces)
    ensures Split(Join(pieces)) == pieces
  {
    SplitWithoutComma(pieces[0]);
    if |pieces| == 1 {
      assert pieces == [pieces[0]];
    } else {
      var rest := pieces[1..];
      JoinSplits(rest);
      SplitJoin(pieces[0], Join(rest));
      assert Join(pieces) == pieces[0] + ([','] + Join(rest));
      assert pieces == [pieces[0]] + rest;
    }
  }

  /** A string is split into the one list of pieces without commas that it joins. */
  lemma SplitExactly(s: string, pieces: seq<string>)
    ensures Split(s) == pieces <==> pieces != [] && Commaless(pieces) && Join(pieces) == s
  {
    SplitJoins(s);
    if pieces != [] && Commaless(pieces) {
      JoinSplits(pieces);
    }
  }

  /** A range written down clause by clause is checked clause by clause. */
  lemma JoinedRange(clauses: seq<string>, v: Version)
    requires clauses != [] && Commaless(clauses)
    ensures CheckRange(Join(clauses), v) == CheckClauses(clauses, v)
  {
    JoinSplits(clauses);
  }

  lemma TwoClauses(a: string, b: string, v: Version)
    requires Split(a) == [a] && Split(b) == [b]
    ensures CheckRange(a + "," + b, v) == AndThen(CheckClause(Strip(a), v), CheckClause(Strip(b), v))
  {
    JoinIsConjunction(a, b, v);
    OneClause(a, v);
    OneClause(b, v);
  }

  lemma OneDotZero()
    ensures ReadsAs("1.0", Version(1, 0))
  {
    PrintedReads(Version(1, 0));
    assert FromNat(1) == ['1'] && FromNat(0) == ['0'];
    assert Print(Version(1, 0)) == "1.0";
  }

  lemma LetterIsMalformed(v: Version)
    ensures Split("x") == ["x"] && CheckClause(Strip("x"), v) == Malformed
  {
    SplitWithoutComma("x");
    TrimKeeps("x");
    assert DigitRun("x") == 0;
  }

  lemma BoundSaysNo(bound: string, v: Version)
    requires bound == PrintOperator(LT) + "1.0" && v == Version(2, 0)
    ensures Split(bound) == [bound] && CheckClause(Strip(bound), v) == Incompatible
  {
    OneDotZero();
    RangeText(LT, "1.0", Version(1, 0));
    assert !Holds(Clause(LT, Version(1, 0)), v);
  }

  /** The range "<1.0,x" says no to version 2.0, and "x,<1.0" is a ValueError. */
  lemma SwapExample(bound: string, junk: string, v: Version)
    requires bound == PrintOperator(LT) + "1.0" && junk == "x" && v == Version(2, 0)
    ensures CheckRange(bound + "," + junk, v) == Incompatible
    ensures CheckRange(junk + "," + bound, v) == Malformed
  {
    BoundSaysNo(bound, v);
    LetterIsMalformed(v);
    TwoClauses(bound, junk, v);
    TwoClauses(junk, bound, v);
  }
}
