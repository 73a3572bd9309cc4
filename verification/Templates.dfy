/**
 Data templates as byte code (src/templates.ts): the encoder, the decoder and the validator. `EncodeAll` is the
 grammar; a template is well-formed when it encodes segments that keep the rules.
 */
module Templates {
  import opened Common

  const MAX_DATA_BYTES := 128
  const MAX_TEMPLATE_BYTES := 256
  const LITERAL: byte := 1
  const HEX: byte := 2
  const DECIMAL: byte := 3
  const INTEGER: byte := 4

  /** A template segment in readable form. Literal text is given as its bytes. */
  datatype Segment =
    | Literal(text: seq<byte>)
    | Hex(length: int)
    | Decimal(fraction: bool, exponent: bool)
    | Integer(minDigits: int, maxDigits: int)

  predicate Operand(n: int) {
    1 <= n <= MAX_DATA_BYTES
  }

  /** Whether the encoder accepts a segment's operands. */
  predicate ValidSegment(s: Segment) {
    match s
    case Literal(text) => Operand(|text|)
    case Hex(length) => Operand(length)
    case Decimal(_, _) => true
    case Integer(minDigits, maxDigits) => Operand(minDigits) && Operand(maxDigits) && minDigits <= maxDigits
  }

  predicate ValidSegments(ss: seq<Segment>) {
    forall i :: 0 <= i < |ss| ==> ValidSegment(ss[i])
  }

  function Flags(fraction: bool, exponent: bool): byte {
    (if fraction then 1 else 0) + (if exponent then 2 else 0)
  }

  function EncodeSegment(s: Segment): (bytes: seq<byte>)
    requires ValidSegment(s)
    ensures 2 <= |bytes|
  {
    match s
    case Literal(text) => [LITERAL, |text|] + text
    case Hex(length) => [HEX, length]
    case Decimal(fraction, exponent) => [DECIMAL, Flags(fraction, exponent)]
    case Integer(minDigits, maxDigits) => [INTEGER, minDigits, maxDigits]
  }

  function EncodeAll(ss: seq<Segment>): seq<byte>
    requires ValidSegments(ss)
  {
    if ss == [] then [] else EncodeSegment(ss[0]) + EncodeAll(ss[1..])
  }

  /** The fewest bytes a segment matches. */
  function Shortest(s: Segment): nat
    requires ValidSegment(s)
  {
    match s
    case Literal(text) => |text|
    case Hex(length) => length
    case Decimal(_, _) => 1
    case Integer(minDigits, _) => minDigits
  }

  function TotalShortest(ss: seq<Segment>): nat
    requires ValidSegments(ss)
  {
    if ss == [] then 0 else Shortest(ss[0]) + TotalShortest(ss[1..])
  }

  predicate HasVariable(ss: seq<Segment>) {
    exists i :: 0 <= i < |ss| && !ss[i].Literal?
  }

  /** The rules beyond the grammar: size, a variable segment, and a shortest match that fits the data limit. */
  predicate WithinRules(ss: seq<Segment>)
    requires ValidSegments(ss)
  {
    && 1 <= |EncodeAll(ss)| <= MAX_TEMPLATE_BYTES
    && HasVariable(ss)
    && TotalShortest(ss) <= MAX_DATA_BYTES
  }

  /** The segments a template stands for. */
  ghost predicate Describes(t: seq<byte>, ss: seq<Segment>) {
    ValidSegments(ss) && EncodeAll(ss) == t && WithinRules(ss)
  }

  ghost predicate WellFormed(t: seq<byte>) {
    exists ss :: Describes(t, ss)
  }

  // ---- unique decoding

  /** The segment at the front of t, if one is there. */
  function HeadSegment(t: seq<byte>): (r: Option<Segment>)
    ensures r.Some? ==> ValidSegment(r.value) && EncodeSegment(r.value) <= t
  {
    if |t| < 2 then None
    else if t[0] == LITERAL then
      if t[1] == 0 || t[1] > MAX_DATA_BYTES || 2 + t[1] > |t| then None
      else
        var r := Literal(t[2..2 + t[1]]);
        assert EncodeSegment(r) == t[..2 + t[1]];
        Some(r)
    else if t[0] == HEX then if t[1] == 0 || t[1] > MAX_DATA_BYTES then None else Some(Hex(t[1]))
    else if t[0] == DECIMAL then if t[1] > 3 then None else Some(Decimal(t[1] % 2 == 1, t[1] >= 2))
    else if t[0] == INTEGER then
      if |t| < 3 || t[1] == 0 || t[1] > t[2] || t[2] > MAX_DATA_BYTES then None else Some(Integer(t[1], t[2]))
    else None
  }

  /** A segment's encoding is read back whatever follows it. */
  lemma HeadOfEncoding(s: Segment, rest: seq<byte>)
    requires ValidSegment(s)
    ensures HeadSegment(EncodeSegment(s) + rest) == Some(s)
  {
    var t := EncodeSegment(s) + rest;
    if s.Literal? {
      assert t[2..2 + |s.text|] == s.text;
    }
  }

  /** The segments t encodes, if it encodes any. */
  function Parse(t: seq<byte>): (r: Option<seq<Segment>>)
    ensures r.Some? ==> ValidSegments(r.value) && EncodeAll(r.value) == t
    decreases |t|
  {
    if t == [] then Some([])
    else
      match HeadSegment(t)
      case None => None
      case Some(s) =>
        match Parse(t[|EncodeSegment(s)|..])
        case None => None
        case Some(ss) =>
          assert t == EncodeSegment(s) + t[|EncodeSegment(s)|..];
          assert ([s] + ss)[1..] == ss;
          Some([s] + ss)
  }

  /** Decoding inverts encoding, so no template has two readings. */
  lemma {:induction false} ParseOfEncoding(ss: seq<Segment>)
    requires ValidSegments(ss)
    ensures Parse(EncodeAll(ss)) == Some(ss)
  {
    if ss != [] {
      ParseOfEncoding(ss[1..]);
      HeadOfEncoding(ss[0], EncodeAll(ss[1..]));
      var t := EncodeAll(ss);
      assert t[|EncodeSegment(ss[0])|..] == EncodeAll(ss[1..]);
      assert [ss[0]] + ss[1..] == ss;
    }
  }

  lemma DescribesUnique(t: seq<byte>, ss: seq<Segment>, rs: seq<Segment>)
    requires Describes(t, ss) && Describes(t, rs)
    ensures ss == rs
  {
    ParseOfEncoding(ss);
    ParseOfEncoding(rs);
  }

  lemma WellFormedIffParses(t: seq<byte>)
    ensures WellFormed(t) <==> Parse(t).Some? && WithinRules(Parse(t).value)
  {
    if WellFormed(t) {
      var ss :| Describes(t, ss);
      ParseOfEncoding(ss);
    }
    if Parse(t).Some? && WithinRules(Parse(t).value) {
      assert Describes(t, Parse(t).value);
    }
  }

  // ---- walking a template from the front

  lemma {:induction false} EncodeAppend(ss: seq<Segment>, s: Segment)
    requires ValidSegments(ss) && ValidSegment(s)
    ensures ValidSegments(ss + [s])
    ensures EncodeAll(ss + [s]) == EncodeAll(ss) + EncodeSegment(s)
  {
    if ss == [] {
      assert ss + [s] == [s] && [s][1..] == [];
    } else {
      EncodeAppend(ss[1..], s);
      assert (ss + [s])[1..] == ss[1..] + [s];
      Regroup(EncodeSegment(ss[0]), EncodeAll(ss[1..]), [], EncodeSegment(s));
    }
  }

  lemma {:induction false} ShortestAppend(ss: seq<Segment>, s: Segment)
    requires ValidSegments(ss) && ValidSegment(s)
    ensures ValidSegments(ss + [s]) && TotalShortest(ss + [s]) == TotalShortest(ss) + Shortest(s)
  {
    if ss == [] {
      assert ss + [s] == [s];
    } else {
      ShortestAppend(ss[1..], s);
      assert (ss + [s])[1..] == ss[1..] + [s];
    }
  }

  /** The grammar is prefix-free: segments that encode the front of a template begin every reading of it. */
  lemma {:induction false} ReadingSplits(done: seq<Segment>, ss: seq<Segment>, rest: seq<byte>)
    requires ValidSegments(done) && ValidSegments(ss) && EncodeAll(ss) == EncodeAll(done) + rest
    ensures |done| <= |ss| && EncodeAll(ss[|done|..]) == rest
  {
    if done == [] {
      assert EncodeAll(done) + rest == rest && ss[0..] == ss;
    } else {
      var first := EncodeSegment(done[0]);
      var tail := EncodeAll(done[1..]) + rest;
      assert EncodeAll(ss) == first + tail by { Regroup(first, EncodeAll(done[1..]), [], rest); }
      assert ss != [];
      HeadOfEncoding(done[0], tail);
      HeadOfEncoding(ss[0], EncodeAll(ss[1..]));
      assert EncodeAll(ss[1..]) == EncodeAll(ss)[|first|..] == tail;
      ReadingSplits(done[1..], ss[1..], rest);
      assert ss[1..][|done| - 1..] == ss[|done|..];
    }
  }

  /** The segment at byte `at`, in terms of the bytes there. */
  lemma HeadAt(t: seq<byte>, at: nat)
    requires at < |t| && HeadSegment(t[at..]).Some?
    ensures at + 1 < |t| && LITERAL <= t[at] <= INTEGER
    ensures t[at] == LITERAL ==>
              at + 2 + t[at + 1] <= |t| && HeadSegment(t[at..]).value == Literal(t[at + 2..at + 2 + t[at + 1]])
    ensures t[at] == HEX ==> HeadSegment(t[at..]).value == Hex(t[at + 1])
    ensures t[at] == DECIMAL ==> HeadSegment(t[at..]).value == Decimal(t[at + 1] % 2 == 1, t[at + 1] >= 2)
    ensures t[at] == INTEGER ==> at + 2 < |t| && HeadSegment(t[at..]).value == Integer(t[at + 1], t[at + 2])
  {
    var u := t[at..];
    assert |u| >= 2 && u[0] == t[at] && u[1] == t[at + 1];
    if t[at] == LITERAL {
      assert 2 + u[1] <= |u|;
      SliceOfDrop(t, at, 2, 2 + u[1]);
    }
  }

  lemma SliceOfDrop<T>(t: seq<T>, at: nat, i: nat, j: nat)
    requires i <= j && at + j <= |t|
    ensures t[at..][i..j] == t[at + i..at + j]
  {
  }

  /** Where a walk over a template stands: the segments before `at`, and what the walk has counted. */
  ghost predicate Walked(t: seq<byte>, at: nat, done: seq<Segment>, shortest: nat, variable: bool) {
    && at <= |t|
    && ValidSegments(done) && EncodeAll(done) == t[..at]
    && shortest == TotalShortest(done) && (variable <==> HasVariable(done))
  }

  /** One step of a walk: the segment at `at` joins those before it. */
  lemma WalkStep(t: seq<byte>, at: nat, done: seq<Segment>, shortest: nat, variable: bool)
    requires Walked(t, at, done, shortest, variable)
    requires HeadSegment(t[at..]).Some?
    ensures var s := HeadSegment(t[at..]).value;
            Walked(t, at + |EncodeSegment(s)|, done + [s], shortest + Shortest(s), variable || !s.Literal?)
  {
    var s := HeadSegment(t[at..]).value;
    EncodeAppend(done, s);
    ShortestAppend(done, s);
    assert t[..at + |EncodeSegment(s)|] == t[..at] + EncodeSegment(s);
    var all := done + [s];
    if HasVariable(done) {
      var i :| 0 <= i < |done| && !done[i].Literal?;
      assert !all[i].Literal?;
    }
    if !s.Literal? { assert !all[|done|].Literal?; }
    if HasVariable(all) {
      var i :| 0 <= i < |all| && !all[i].Literal?;
      if i < |done| { assert !done[i].Literal?; }
    }
  }

  /** A walk that reaches the end has read the template. */
  lemma WalkEnd(t: seq<byte>, done: seq<Segment>, shortest: nat, variable: bool)
    requires Walked(t, |t|, done, shortest, variable)
    ensures Parse(t) == Some(done)
  {
    assert t[..|t|] == t;
    ParseOfEncoding(done);
  }

  /** A walk that finds no segment where one should start shows that the template encodes none. */
  lemma WalkStuck(t: seq<byte>, at: nat, done: seq<Segment>, shortest: nat, variable: bool)
    requires Walked(t, at, done, shortest, variable) && at < |t|
    requires HeadSegment(t[at..]).None?
    ensures Parse(t).None?
  {
    if Parse(t).Some? {
      var ss := Parse(t).value;
      assert t == t[..at] + t[at..];
      ReadingSplits(done, ss, t[at..]);
      var next := ss[|done|..];
      HeadOfEncoding(next[0], EncodeAll(next[1..]));
    }
  }

  /** In a template that parses, a walk can always go on. */
  lemma WalkOn(t: seq<byte>, at: nat, done: seq<Segment>, shortest: nat, variable: bool)
    requires Walked(t, at, done, shortest, variable) && at < |t| && Parse(t).Some?
    ensures HeadSegment(t[at..]).Some?
    ensures var s := HeadSegment(t[at..]).value;
            Walked(t, at + |EncodeSegment(s)|, done + [s], shortest + Shortest(s), variable || !s.Literal?)
  {
    if HeadSegment(t[at..]).None? { WalkStuck(t, at, done, shortest, variable); }
    WalkStep(t, at, done, shortest, variable);
  }

  // ---- the code

  /** Why a template is refused; a segment is named by the byte it starts at. */
  datatype Problem = WrongSize | BadSegment(at: nat) | NoVariableSegment | ShortestMatchTooLong

  ghost predicate Explains(p: Problem, t: seq<byte>) {
    match p
    case WrongSize => |t| == 0 || |t| > MAX_TEMPLATE_BYTES
    case BadSegment(at) => at < |t| && Parse(t[..at]).Some? && HeadSegment(t[at..]).None?
    case NoVariableSegment => Parse(t).Some? && !HasVariable(Parse(t).value)
    case ShortestMatchTooLong => Parse(t).Some? && TotalShortest(Parse(t).value) > MAX_DATA_BYTES
  }

  /** What one segment tells the walk: where the next one starts, its shortest match and whether it is a literal. */
  datatype Reading = Reading(size: nat, shortest: nat, variable: bool)

  ghost function ReadingOf(s: Segment): Reading
    requires ValidSegment(s)
  {
    Reading(|EncodeSegment(s)|, Shortest(s), !s.Literal?)
  }

  /** The segment at one byte of a template, as the validator's loop looks at it. */
  method ReadSegment(t: seq<byte>, at: nat) returns (r: Option<Reading>)
    requires at < |t|
    ensures r.Some? <==> HeadSegment(t[at..]).Some?
    ensures r.Some? ==> r.value == ReadingOf(HeadSegment(t[at..]).value)
  {
    var op := t[at];
    if op == LITERAL {
      if at + 1 >= |t| { return None; }
      var n := t[at + 1];
      if n == 0 || n > MAX_DATA_BYTES || at + 2 + n > |t| { return None; }
      return Some(Reading(2 + n, n, false));
    } else if op == HEX {
      if at + 1 >= |t| { return None; }
      var n := t[at + 1];
      if n == 0 || n > MAX_DATA_BYTES { return None; }
      return Some(Reading(2, n, true));
    } else if op == DECIMAL {
      if at + 1 >= |t| || t[at + 1] > 3 { return None; }
      return Some(Reading(2, 1, true));
    } else if op == INTEGER {
      if at + 2 >= |t| { return None; }
      var min, max := t[at + 1], t[at + 2];
      if min == 0 || min > max || max > MAX_DATA_BYTES { return None; }
      return Some(Reading(3, min, true));
    }
    return None;
  }

  /** `templateProblem`: nothing exactly for the well-formed templates, else a rule the template breaks. */
  method TemplateProblem(t: seq<byte>) returns (problem: Option<Problem>)
    ensures problem.None? <==> WellFormed(t)
    ensures problem.Some? ==> Explains(problem.value, t)
  {
    WellFormedIffParses(t);
    if |t| == 0 || |t| > MAX_TEMPLATE_BYTES { return Some(WrongSize); }
    var at: nat, shortest: nat, variable := 0, 0, false;
    ghost var done: seq<Segment> := [];
    while at < |t|
      invariant Walked(t, at, done, shortest, variable)
      decreases |t| - at
    {
      var read := ReadSegment(t, at);
      if read.None? {
        WalkStuck(t, at, done, shortest, variable);
        ParseOfEncoding(done);
        return Some(BadSegment(at));
      }
      WalkStep(t, at, done, shortest, variable);
      done := done + [HeadSegment(t[at..]).value];
      at, shortest, variable := at + read.value.size, shortest + read.value.shortest, variable || read.value.variable;
    }
    WalkEnd(t, done, shortest, variable);
    if !variable { return Some(NoVariableSegment); }
    if shortest > MAX_DATA_BYTES { return Some(ShortestMatchTooLong); }
    return None;
  }

  /** `encodeDataTemplate`: the bytes of the segments, unless an operand or a rule refuses them. */
  method EncodeDataTemplate(segments: seq<Segment>) returns (r: Option<seq<byte>>)
    ensures r.Some? <==> ValidSegments(segments) && WithinRules(segments)
    ensures r.Some? ==> Describes(r.value, segments)
  {
    var bytes: seq<byte> := [];
    for i := 0 to |segments|
      invariant ValidSegments(segments[..i])
      invariant bytes == EncodeAll(segments[..i])
    {
      var s := segments[i];
      if !ValidSegment(s) { return None; }
      EncodeAppend(segments[..i], s);
      assert segments[..i + 1] == segments[..i] + [s];
      bytes := bytes + EncodeSegment(s);
    }
    assert segments[..|segments|] == segments;
    ParseOfEncoding(segments);
    WellFormedIffParses(bytes);
    var problem := TemplateProblem(bytes);
    r := if problem.Some? then None else Some(bytes);
  }

  /** One pass of the decoder's loop: the segment at `at` and where the next one starts. */
  method DecodeSegment(t: seq<byte>, at: nat) returns (s: Segment, next: nat)
    requires at < |t| && HeadSegment(t[at..]).Some?
    ensures s == HeadSegment(t[at..]).value && next == at + |EncodeSegment(s)|
  {
    HeadAt(t, at);
    var op := t[at];
    if op == LITERAL {
      s, next := Literal(t[at + 2..at + 2 + t[at + 1]]), at + 2 + t[at + 1];
    } else if op == HEX {
      s, next := Hex(t[at + 1]), at + 2;
    } else if op == DECIMAL {
      s, next := Decimal(t[at + 1] % 2 == 1, t[at + 1] >= 2), at + 2;
    } else {
      s, next := Integer(t[at + 1], t[at + 2]), at + 3;
    }
  }

  /** `decodeDataTemplate`: the segments of a well-formed template, and nothing for any other. */
  method DecodeDataTemplate(t: seq<byte>) returns (r: Option<seq<Segment>>)
    ensures r.Some? <==> WellFormed(t)
    ensures r.Some? ==> Describes(t, r.value)
  {
    var problem := TemplateProblem(t);
    if problem.Some? { return None; }
    WellFormedIffParses(t);
    var segments: seq<Segment> := [];
    var at := 0;
    ghost var shortest: nat, variable := 0, false;
    while at < |t|
      invariant Walked(t, at, segments, shortest, variable)
      decreases |t| - at
    {
      WalkOn(t, at, segments, shortest, variable);
      var s, next := DecodeSegment(t, at);
      shortest, variable := shortest + Shortest(s), variable || !s.Literal?;
      segments, at := segments + [s], next;
    }
    WalkEnd(t, segments, shortest, variable);
    return Some(segments);
  }
}
