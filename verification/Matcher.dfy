/**
 The greedy matcher of data templates (src/templates.ts) against the plain language of a template. The matcher never
 backtracks; it decides the language exactly when no variable segment can run into the one after it.
 */
module Matcher {
  import opened Common
  import opened Templates

  const ZERO: byte := 0x30
  const NINE: byte := 0x39
  const POINT: byte := 0x2e
  const ONE: byte := 0x31

  predicate IsDigit(c: byte) {
    ZERO <= c <= NINE
  }

  predicate IsHexDigit(c: byte) {
    IsDigit(c) || 0x61 <= c <= 0x66
  }

  predicate IsExponentMark(c: byte) {
    c == 0x65 || c == 0x45
  }

  predicate IsSign(c: byte) {
    c == 0x2b || c == 0x2d
  }

  // ---- the language

  ghost predicate Digits1(d: seq<byte>) {
    |d| >= 1 && forall i :: 0 <= i < |d| ==> IsDigit(d[i])
  }

  /** int of section 6 of RFC 8259: zero, or a digit from 1 to 9 and digits. */
  ghost predicate IntegerPart(d: seq<byte>) {
    Digits1(d) && (d[0] == ZERO ==> |d| == 1)
  }

  /** [ frac ] */
  ghost predicate FractionPart(allowed: bool, d: seq<byte>) {
    d == [] || (allowed && d[0] == POINT && Digits1(d[1..]))
  }

  /** [ exp ] */
  ghost predicate ExponentPart(allowed: bool, d: seq<byte>) {
    || d == []
    || (allowed && IsExponentMark(d[0]) && (Digits1(d[1..]) || (|d| >= 2 && IsSign(d[1]) && Digits1(d[2..]))))
  }

  /** An unsigned JSON number: int [ frac ] [ exp ]. */
  ghost predicate IsDecimal(fraction: bool, exponent: bool, d: seq<byte>) {
    exists a, b, c :: DecimalParts(fraction, exponent, a, b, c) && d == a + (b + c)
  }

  ghost predicate DecimalParts(fraction: bool, exponent: bool, a: seq<byte>, b: seq<byte>, c: seq<byte>) {
    IntegerPart(a) && FractionPart(fraction, b) && ExponentPart(exponent, c)
  }

  /** What a segment stands for. */
  ghost predicate InSegment(s: Segment, d: seq<byte>) {
    match s
    case Literal(text) => d == text
    case Hex(length) => |d| == length && forall i :: 0 <= i < |d| ==> IsHexDigit(d[i])
    case Decimal(fraction, exponent) => IsDecimal(fraction, exponent, d)
    case Integer(minDigits, maxDigits) => Digits1(d) && d[0] != ZERO && minDigits <= |d| <= maxDigits
  }

  ghost function Flatten(pieces: seq<seq<byte>>): seq<byte> {
    if pieces == [] then [] else pieces[0] + Flatten(pieces[1..])
  }

  /** A reading of data under a template: one piece a segment. */
  ghost predicate IsParse(ss: seq<Segment>, pieces: seq<seq<byte>>, d: seq<byte>) {
    && |pieces| == |ss|
    && Flatten(pieces) == d
    && forall i :: 0 <= i < |ss| ==> InSegment(ss[i], pieces[i])
  }

  ghost predicate InLanguage(ss: seq<Segment>, d: seq<byte>) {
    exists pieces :: IsParse(ss, pieces, d)
  }

  // ---- greedy consumption from the front of the data

  /** How many digits the data starts with. */
  function DigitRun(d: seq<byte>): (n: nat)
    ensures n <= |d|
    ensures forall i :: 0 <= i < n ==> IsDigit(d[i])
    ensures n < |d| ==> !IsDigit(d[n])
  {
    if d != [] && IsDigit(d[0]) then 1 + DigitRun(d[1..]) else 0
  }

  /** What the fraction takes from the front of the data: nothing when it does not start here, or it fails. */
  function FractionRun(allowed: bool, d: seq<byte>): (r: Option<nat>)
    ensures r.Some? ==> r.value <= |d|
  {
    if allowed && d != [] && d[0] == POINT then
      var n := DigitRun(d[1..]);
      if n == 0 then None else Some(1 + n)
    else Some(0)
  }

  function ExponentRun(allowed: bool, d: seq<byte>): (r: Option<nat>)
    ensures r.Some? ==> r.value <= |d|
  {
    if allowed && d != [] && IsExponentMark(d[0]) then
      var head := if |d| >= 2 && IsSign(d[1]) then 2 else 1;
      var n := DigitRun(d[head..]);
      if n == 0 then None else Some(head + n)
    else Some(0)
  }

  /** How many digits the integer part takes. */
  function IntegerRun(d: seq<byte>): (r: Option<nat>)
    ensures r.Some? ==> 1 <= r.value <= |d|
  {
    if d == [] || !IsDigit(d[0]) then None
    else if d[0] == ZERO then if |d| >= 2 && IsDigit(d[1]) then None else Some(1)
    else Some(DigitRun(d))
  }

  /** The fraction and the exponent together. */
  function SuffixRun(fraction: bool, exponent: bool, d: seq<byte>): (r: Option<nat>)
    ensures r.Some? ==> r.value <= |d|
  {
    match FractionRun(fraction, d)
    case None => None
    case Some(f) =>
      match ExponentRun(exponent, d[f..])
      case None => None
      case Some(e) => Some(f + e)
  }

  /** `decimalEnd`, relative to the front of the data. */
  function DecimalRun(fraction: bool, exponent: bool, d: seq<byte>): (r: Option<nat>)
    ensures r.Some? ==> 1 <= r.value <= |d|
  {
    match IntegerRun(d)
    case None => None
    case Some(i) =>
      match SuffixRun(fraction, exponent, d[i..])
      case None => None
      case Some(n) => Some(i + n)
  }

  /** What the matcher takes for a segment from the front of the data, if it can. */
  function GreedyRun(s: Segment, d: seq<byte>): (r: Option<nat>)
    requires ValidSegment(s)
    ensures r.Some? ==> r.value <= |d|
  {
    match s
    case Literal(text) => if text <= d then Some(|text|) else None
    case Hex(length) =>
      if length <= |d| && forall i :: 0 <= i < length ==> IsHexDigit(d[i]) then Some(length) else None
    case Decimal(fraction, exponent) => DecimalRun(fraction, exponent, d)
    case Integer(minDigits, maxDigits) =>
      if d == [] || !IsDigit(d[0]) || d[0] == ZERO then None
      else if minDigits <= DigitRun(d) <= maxDigits then Some(DigitRun(d)) else None
  }

  /** Whether the segments, each greedy, consume the data exactly. */
  predicate Matches(ss: seq<Segment>, d: seq<byte>)
    requires ValidSegments(ss)
  {
    if ss == [] then d == []
    else GreedyRun(ss[0], d).Some? && Matches(ss[1..], d[GreedyRun(ss[0], d).value..])
  }

  // ---- soundness: what the matcher takes is in the language

  lemma SplitInTwo<T>(d: seq<T>, i: nat, n: nat)
    requires i + n <= |d|
    ensures d[..i + n] == d[..i] + d[i..][..n]
  {
  }

  /** The suffix of a number: its fraction and exponent, either possibly empty. */
  ghost predicate SuffixParts(fraction: bool, exponent: bool, b: seq<byte>, c: seq<byte>, d: seq<byte>) {
    FractionPart(fraction, b) && ExponentPart(exponent, c) && d == b + c
  }

  lemma SuffixRunSound(fraction: bool, exponent: bool, d: seq<byte>) returns (b: seq<byte>, c: seq<byte>)
    requires SuffixRun(fraction, exponent, d).Some?
    ensures SuffixParts(fraction, exponent, b, c, d[..SuffixRun(fraction, exponent, d).value])
  {
    var f := FractionRun(fraction, d).value;
    var e := ExponentRun(exponent, d[f..]).value;
    FractionRunSound(fraction, d);
    ExponentRunSound(exponent, d[f..]);
    SplitInTwo(d, f, e);
    b, c := d[..f], d[f..][..e];
  }

  lemma DecimalRunSound(fraction: bool, exponent: bool, d: seq<byte>)
    requires DecimalRun(fraction, exponent, d).Some?
    ensures IsDecimal(fraction, exponent, d[..DecimalRun(fraction, exponent, d).value])
  {
    var i := IntegerRun(d).value;
    var n := SuffixRun(fraction, exponent, d[i..]).value;
    var b, c := SuffixRunSound(fraction, exponent, d[i..]);
    SplitInTwo(d, i, n);
    assert DecimalParts(fraction, exponent, d[..i], b, c);
  }

  lemma FractionRunSound(allowed: bool, d: seq<byte>)
    requires FractionRun(allowed, d).Some?
    ensures FractionPart(allowed, d[..FractionRun(allowed, d).value])
  {
    var n := FractionRun(allowed, d).value;
    if n > 0 { assert d[..n][1..] == d[1..][..n - 1]; }
  }

  lemma ExponentRunSound(allowed: bool, d: seq<byte>)
    requires ExponentRun(allowed, d).Some?
    ensures ExponentPart(allowed, d[..ExponentRun(allowed, d).value])
  {
    var n := ExponentRun(allowed, d).value;
    if n > 0 {
      var head := if |d| >= 2 && IsSign(d[1]) then 2 else 1;
      assert n == head + DigitRun(d[head..]) > head;
      TakeThenDrop(d, head, n);
    }
  }

  lemma TakeThenDrop<T>(d: seq<T>, head: nat, n: nat)
    requires head <= n <= |d|
    ensures d[..n][head..] == d[head..][..n - head]
  {
  }

  lemma GreedyRunSound(s: Segment, d: seq<byte>)
    requires ValidSegment(s) && GreedyRun(s, d).Some?
    ensures InSegment(s, d[..GreedyRun(s, d).value])
  {
    if s.Decimal? { DecimalRunSound(s.fraction, s.exponent, d); }
  }

  /** The pieces the matcher cuts the data into. */
  ghost function GreedyPieces(ss: seq<Segment>, d: seq<byte>): (pieces: seq<seq<byte>>)
    requires ValidSegments(ss) && Matches(ss, d)
    ensures |pieces| == |ss|
  {
    if ss == [] then []
    else
      var n := GreedyRun(ss[0], d).value;
      [d[..n]] + GreedyPieces(ss[1..], d[n..])
  }

  /** The matcher accepts only data of the template's language, whatever the template: its own pieces are a reading. */
  lemma {:induction false} MatchesSound(ss: seq<Segment>, d: seq<byte>)
    requires ValidSegments(ss) && Matches(ss, d)
    ensures IsParse(ss, GreedyPieces(ss, d), d)
  {
    if ss != [] {
      var n := GreedyRun(ss[0], d).value;
      MatchesSound(ss[1..], d[n..]);
      GreedyRunSound(ss[0], d);
      var pieces := GreedyPieces(ss, d);
      assert pieces[1..] == GreedyPieces(ss[1..], d[n..]);
      assert d == d[..n] + d[n..];
      forall i | 0 <= i < |ss| ensures InSegment(ss[i], pieces[i]) {
        if i > 0 { assert ss[i] == ss[1..][i - 1] && pieces[i] == pieces[1..][i - 1]; }
      }
    }
  }

  // ---- separation

  /** Whether a variable segment would go on past its end when this byte follows. */
  predicate Continues(s: Segment, c: byte) {
    match s
    case Integer(_, _) => IsDigit(c)
    case Decimal(fraction, exponent) => IsDigit(c) || (fraction && c == POINT) || (exponent && IsExponentMark(c))
    case _ => false
  }

  predicate SelfDelimiting(s: Segment) {
    s.Literal? || s.Hex?
  }

  /** Whether segment s may be followed by segment n: the byte that starts n never continues s. */
  predicate MayFollow(s: Segment, n: Segment) {
    SelfDelimiting(s) || (n.Literal? && n.text != [] && !Continues(s, n.text[0]))
  }

  /** Every number of the template is last, or followed by literal text that does not continue it. */
  predicate Separated(ss: seq<Segment>) {
    forall i :: 0 <= i < |ss| - 1 ==> MayFollow(ss[i], ss[i + 1])
  }

  /** What follows piece p in the data does not continue segment s. */
  ghost predicate StopsAt(s: Segment, rest: seq<byte>) {
    SelfDelimiting(s) || rest == [] || !Continues(s, rest[0])
  }

  lemma DigitRunStops(p: seq<byte>, rest: seq<byte>)
    requires forall i :: 0 <= i < |p| ==> IsDigit(p[i])
    requires rest == [] || !IsDigit(rest[0])
    ensures DigitRun(p + rest) == |p|
  {
    var d := p + rest;
    var n := DigitRun(d);
    assert forall i :: 0 <= i < |p| ==> d[i] == p[i];
    assert |p| < |d| ==> d[|p|] == rest[0];
  }

  lemma IntegerRunStops(p: seq<byte>, rest: seq<byte>)
    requires IntegerPart(p) && (rest == [] || !IsDigit(rest[0]))
    ensures IntegerRun(p + rest) == Some(|p|)
  {
    DigitRunStops(p, rest);
  }

  lemma FractionRunStops(allowed: bool, p: seq<byte>, rest: seq<byte>)
    requires FractionPart(allowed, p)
    requires rest == [] || (!IsDigit(rest[0]) && (allowed ==> rest[0] != POINT))
    ensures FractionRun(allowed, p + rest) == Some(|p|)
  {
    if p != [] {
      assert (p + rest)[1..] == p[1..] + rest;
      DigitRunStops(p[1..], rest);
    } else {
      assert p + rest == rest;
    }
  }

  lemma ExponentRunStops(allowed: bool, p: seq<byte>, rest: seq<byte>)
    requires ExponentPart(allowed, p)
    requires rest == [] || (!IsDigit(rest[0]) && (allowed ==> !IsExponentMark(rest[0])))
    ensures ExponentRun(allowed, p + rest) == Some(|p|)
  {
    var d := p + rest;
    if p == [] {
      assert d == rest;
    } else if |p| >= 2 && IsSign(p[1]) {
      assert !IsDigit(p[1..][0]);
      assert d[2..] == p[2..] + rest;
      DigitRunStops(p[2..], rest);
    } else {
      assert |p| >= 2 && d[1] == p[1];
      assert d[1..] == p[1..] + rest;
      DigitRunStops(p[1..], rest);
    }
  }

  lemma SuffixRunFrom(fraction: bool, exponent: bool, b: seq<byte>, tail: seq<byte>, n: nat)
    requires FractionRun(fraction, b + tail) == Some(|b|) && ExponentRun(exponent, tail) == Some(n)
    ensures SuffixRun(fraction, exponent, b + tail) == Some(|b| + n)
  {
    assert (b + tail)[|b|..] == tail;
  }

  lemma SuffixRunStops(fraction: bool, exponent: bool, b: seq<byte>, c: seq<byte>, rest: seq<byte>)
    requires FractionPart(fraction, b) && ExponentPart(exponent, c)
    requires StopsAt(Decimal(fraction, exponent), rest)
    ensures SuffixRun(fraction, exponent, b + (c + rest)) == Some(|b| + |c|)
  {
    FractionRunStops(fraction, b, c + rest);
    ExponentRunStops(exponent, c, rest);
    SuffixRunFrom(fraction, exponent, b, c + rest, |c|);
  }

  lemma DecimalRunFrom(fraction: bool, exponent: bool, a: seq<byte>, tail: seq<byte>, n: nat)
    requires IntegerRun(a + tail) == Some(|a|) && SuffixRun(fraction, exponent, tail) == Some(n)
    ensures DecimalRun(fraction, exponent, a + tail) == Some(|a| + n)
  {
    assert (a + tail)[|a|..] == tail;
  }

  lemma NoDigitFirst(fraction: bool, exponent: bool, b: seq<byte>, c: seq<byte>, rest: seq<byte>)
    requires FractionPart(fraction, b) && ExponentPart(exponent, c)
    requires StopsAt(Decimal(fraction, exponent), rest)
    ensures var tail := b + (c + rest); tail == [] || !IsDigit(tail[0])
  {
  }

  /** The integer part of a number stops where its suffix starts. */
  lemma IntegerStopsAtSuffix(fraction: bool, exponent: bool, a: seq<byte>, b: seq<byte>, c: seq<byte>, rest: seq<byte>)
    requires DecimalParts(fraction, exponent, a, b, c) && StopsAt(Decimal(fraction, exponent), rest)
    ensures IntegerRun(a + (b + (c + rest))) == Some(|a|)
  {
    NoDigitFirst(fraction, exponent, b, c, rest);
    IntegerRunStops(a, b + (c + rest));
  }

  /** The integer part and the rest of a number with what follows it, and how much the runs take of each. */
  lemma PartsStop(fraction: bool, exponent: bool, p: seq<byte>, rest: seq<byte>) returns (a: seq<byte>,
      tail: seq<byte>, n: nat)
    requires IsDecimal(fraction, exponent, p) && StopsAt(Decimal(fraction, exponent), rest)
    ensures p + rest == a + tail && |p| == |a| + n
    ensures IntegerRun(a + tail) == Some(|a|)
    ensures SuffixRun(fraction, exponent, tail) == Some(n)
  {
    var i, b, c :| DecimalParts(fraction, exponent, i, b, c) && p == i + (b + c);
    Regroup(i, b, c, rest);
    IntegerStopsAtSuffix(fraction, exponent, i, b, c, rest);
    SuffixRunStops(fraction, exponent, b, c, rest);
    a, tail, n := i, b + (c + rest), |b| + |c|;
  }

  /** A number is taken whole, and nothing more, when what follows does not continue it. */
  lemma DecimalRunStops(fraction: bool, exponent: bool, p: seq<byte>, rest: seq<byte>)
    requires IsDecimal(fraction, exponent, p) && StopsAt(Decimal(fraction, exponent), rest)
    ensures DecimalRun(fraction, exponent, p + rest) == Some(|p|)
  {
    var a, tail, n := PartsStop(fraction, exponent, p, rest);
    DecimalRunFrom(fraction, exponent, a, tail, n);
  }

  lemma GreedyRunStops(s: Segment, p: seq<byte>, rest: seq<byte>)
    requires ValidSegment(s) && InSegment(s, p) && StopsAt(s, rest)
    ensures GreedyRun(s, p + rest) == Some(|p|)
  {
    match s
    case Literal(text) => assert (p + rest)[..|p|] == p;
    case Hex(length) =>
      forall i | 0 <= i < length ensures IsHexDigit((p + rest)[i]) {
        assert (p + rest)[i] == p[i];
      }
    case Decimal(fraction, exponent) => DecimalRunStops(fraction, exponent, p, rest);
    case Integer(_, _) => DigitRunStops(p, rest);
  }

  lemma SeparatedTail(ss: seq<Segment>)
    requires Separated(ss) && ss != []
    ensures Separated(ss[1..])
  {
    forall i | 0 <= i < |ss[1..]| - 1 ensures MayFollow(ss[1..][i], ss[1..][i + 1]) {
      assert MayFollow(ss[i + 1], ss[i + 2]);
    }
  }

  lemma ParseTail(ss: seq<Segment>, pieces: seq<seq<byte>>, d: seq<byte>)
    requires IsParse(ss, pieces, d) && ss != []
    ensures d == pieces[0] + Flatten(pieces[1..]) && InSegment(ss[0], pieces[0])
    ensures IsParse(ss[1..], pieces[1..], Flatten(pieces[1..]))
  {
    forall i | 0 <= i < |ss[1..]| ensures InSegment(ss[1..][i], pieces[1..][i]) {
      assert InSegment(ss[i + 1], pieces[i + 1]);
    }
  }

  /** In a separated template the data after a piece never continues its segment. */
  lemma SeparatedStops(ss: seq<Segment>, pieces: seq<seq<byte>>, d: seq<byte>)
    requires ValidSegments(ss) && Separated(ss) && ss != [] && IsParse(ss, pieces, d)
    ensures StopsAt(ss[0], Flatten(pieces[1..]))
  {
    if |ss| >= 2 {
      assert MayFollow(ss[0], ss[1]);
      ParseTail(ss, pieces, d);
      assert InSegment(ss[1], pieces[1..][0]);
    }
  }

  /** Every reading of data under a separated template is the matcher's own: it accepts, and there is no other. */
  lemma {:induction false} MatchesComplete(ss: seq<Segment>, pieces: seq<seq<byte>>, d: seq<byte>)
    requires ValidSegments(ss) && Separated(ss) && IsParse(ss, pieces, d)
    ensures Matches(ss, d) && GreedyPieces(ss, d) == pieces
  {
    if ss != [] {
      var rest := Flatten(pieces[1..]);
      ParseTail(ss, pieces, d);
      SeparatedStops(ss, pieces, d);
      SeparatedTail(ss);
      MatchesComplete(ss[1..], pieces[1..], rest);
      GreedyRunStops(ss[0], pieces[0], rest);
      assert d[|pieces[0]|..] == rest && d[..|pieces[0]|] == pieces[0];
      assert pieces == [pieces[0]] + pieces[1..];
    }
  }

  // ---- the shortest record

  ghost function ShortestPiece(s: Segment): (p: seq<byte>)
    requires ValidSegment(s)
    ensures |p| == Shortest(s)
  {
    match s
    case Literal(text) => text
    case Hex(length) => seq(length, _ => ZERO)
    case Decimal(_, _) => [ZERO]
    case Integer(minDigits, _) => seq(minDigits, _ => ONE)
  }

  ghost function ShortestPieces(ss: seq<Segment>): (pieces: seq<seq<byte>>)
    requires ValidSegments(ss)
    ensures |pieces| == |ss| && forall i :: 0 <= i < |ss| ==> pieces[i] == ShortestPiece(ss[i])
  {
    seq(|ss|, i requires 0 <= i < |ss| => ShortestPiece(ss[i]))
  }

  /** A record of the fewest bytes: each segment at its shortest. */
  ghost function ShortestRecord(ss: seq<Segment>): seq<byte>
    requires ValidSegments(ss)
  {
    Flatten(ShortestPieces(ss))
  }

  lemma ShortestPieceInSegment(s: Segment)
    requires ValidSegment(s)
    ensures InSegment(s, ShortestPiece(s))
  {
    if s.Decimal? {
      var d := ShortestPiece(s);
      assert DecimalParts(s.fraction, s.exponent, d, [], []);
      assert d == d + ([] + []);
    }
  }

  lemma ShortestRecordTail(ss: seq<Segment>)
    requires ValidSegments(ss) && ss != []
    ensures ShortestRecord(ss) == ShortestPiece(ss[0]) + ShortestRecord(ss[1..])
  {
    assert ShortestPieces(ss)[1..] == ShortestPieces(ss[1..]);
  }

  /** The template's shortest match is attained by a record of its language. */
  lemma {:induction false} ShortestRecordInLanguage(ss: seq<Segment>)
    requires ValidSegments(ss)
    ensures IsParse(ss, ShortestPieces(ss), ShortestRecord(ss))
    ensures |ShortestRecord(ss)| == TotalShortest(ss)
  {
    forall i | 0 <= i < |ss| ensures InSegment(ss[i], ShortestPieces(ss)[i]) {
      ShortestPieceInSegment(ss[i]);
    }
    if ss != [] {
      ShortestRecordInLanguage(ss[1..]);
      ShortestRecordTail(ss);
    }
  }

  lemma NothingShorterInSegment(s: Segment, d: seq<byte>)
    requires ValidSegment(s) && InSegment(s, d)
    ensures Shortest(s) <= |d|
  {
    if s.Decimal? {
      var a, b, c :| DecimalParts(s.fraction, s.exponent, a, b, c) && d == a + (b + c);
    }
  }

  /** Nothing in the language is shorter. */
  lemma {:induction false} NothingShorter(ss: seq<Segment>, pieces: seq<seq<byte>>, d: seq<byte>)
    requires ValidSegments(ss) && IsParse(ss, pieces, d)
    ensures TotalShortest(ss) <= |d|
  {
    if ss != [] {
      ParseTail(ss, pieces, d);
      NothingShorter(ss[1..], pieces[1..], Flatten(pieces[1..]));
      NothingShorterInSegment(ss[0], pieces[0]);
    }
  }

  lemma NothingShorterMatches(ss: seq<Segment>, d: seq<byte>)
    requires ValidSegments(ss) && Matches(ss, d)
    ensures TotalShortest(ss) <= |d|
  {
    MatchesSound(ss, d);
    NothingShorter(ss, GreedyPieces(ss, d), d);
  }

  // ---- exactness

  /** A number whose next byte continues it is not taken as its shortest piece. */
  lemma RunsOn(s: Segment, rest: seq<byte>)
    requires ValidSegment(s) && !SelfDelimiting(s) && rest != [] && Continues(s, rest[0])
    ensures GreedyRun(s, ShortestPiece(s) + rest) != Some(Shortest(s))
  {
    var p := ShortestPiece(s);
    var d := p + rest;
    if s.Integer? {
      assert d[|p|] == rest[0];
    } else {
      assert d[0] == ZERO && d[1] == rest[0];
      assert d[1..] == rest;
      if !IsDigit(rest[0]) { assert IntegerRun(d) == Some(1); }
      if s.fraction && rest[0] == POINT {
        assert FractionRun(s.fraction, rest) != Some(0);
      } else if !IsDigit(rest[0]) {
        assert FractionRun(s.fraction, rest) == Some(0);
        assert rest[0..] == rest;
        assert ExponentRun(s.exponent, rest) != Some(0);
      }
    }
  }

  /** A segment whose successor may not follow it meets, in the shortest record, a byte that continues it. */
  lemma ShortestRecordContinues(ss: seq<Segment>)
    requires ValidSegments(ss) && |ss| >= 2 && !MayFollow(ss[0], ss[1])
    ensures var rest := ShortestRecord(ss[1..]); rest != [] && Continues(ss[0], rest[0])
  {
    ShortestRecordTail(ss[1..]);
    assert ss[1..][0] == ss[1];
    assert ShortestRecord(ss[1..])[0] == ShortestPiece(ss[1])[0];
  }

  /** When the matcher accepts the shortest record, it takes every segment at its shortest. */
  lemma ShortestTakenFirst(ss: seq<Segment>)
    requires ValidSegments(ss) && ss != [] && Matches(ss, ShortestRecord(ss))
    ensures GreedyRun(ss[0], ShortestRecord(ss)) == Some(Shortest(ss[0]))
    ensures Matches(ss[1..], ShortestRecord(ss[1..]))
  {
    var d := ShortestRecord(ss);
    var n := GreedyRun(ss[0], d).value;
    ShortestRecordInLanguage(ss);
    NothingShorterMatches(ss[1..], d[n..]);
    GreedyRunSound(ss[0], d);
    NothingShorterInSegment(ss[0], d[..n]);
    ShortestRecordTail(ss);
    assert d[n..] == ShortestRecord(ss[1..]);
  }

  /** The matcher accepts the template's shortest record exactly when the template is separated. */
  lemma {:induction false} ShortestRecordDecides(ss: seq<Segment>)
    requires ValidSegments(ss)
    ensures Matches(ss, ShortestRecord(ss)) <==> Separated(ss)
  {
    ShortestRecordInLanguage(ss);
    if Separated(ss) {
      MatchesComplete(ss, ShortestPieces(ss), ShortestRecord(ss));
    }
    if ss != [] && Matches(ss, ShortestRecord(ss)) {
      ShortestTakenFirst(ss);
      ShortestRecordDecides(ss[1..]);
      ShortestRecordTail(ss);
      forall i | 0 <= i < |ss| - 1 ensures MayFollow(ss[i], ss[i + 1]) {
        if i > 0 {
          assert MayFollow(ss[1..][i - 1], ss[1..][i]);
        } else if !MayFollow(ss[0], ss[1]) {
          ShortestRecordContinues(ss);
          RunsOn(ss[0], ShortestRecord(ss[1..]));
        }
      }
    }
  }

  /** Whether the matcher's verdict is the language, over all data a record may be. */
  ghost predicate Exact(ss: seq<Segment>)
    requires ValidSegments(ss)
  {
    forall d: seq<byte> :: |d| <= MAX_DATA_BYTES ==> (Matches(ss, d) <==> InLanguage(ss, d))
  }

  /**
   The greedy matcher decides a template's language exactly when the template is separated. A template that is not
   refuses its own shortest record.
   */
  lemma ExactIffSeparated(ss: seq<Segment>)
    requires ValidSegments(ss) && WithinRules(ss)
    ensures Exact(ss) <==> Separated(ss)
  {
    if Separated(ss) {
      forall d: seq<byte> | |d| <= MAX_DATA_BYTES ensures Matches(ss, d) <==> InLanguage(ss, d) {
        if Matches(ss, d) { MatchesSound(ss, d); }
        if InLanguage(ss, d) {
          var pieces :| IsParse(ss, pieces, d);
          MatchesComplete(ss, pieces, d);
        }
      }
    }
    if Exact(ss) {
      ShortestRecordInLanguage(ss);
      assert InLanguage(ss, ShortestRecord(ss));
      ShortestRecordDecides(ss);
    }
  }

  /** A simple rule that separates: literal text after a number starts with none of the digits, '.', 'e' and 'E'. */
  lemma PlainLiteralsSeparate(ss: seq<Segment>)
    requires ValidSegments(ss)
    requires forall i :: 0 <= i < |ss| - 1 && !SelfDelimiting(ss[i]) ==>
               && ss[i + 1].Literal?
               && !IsDigit(ss[i + 1].text[0]) && ss[i + 1].text[0] != POINT && !IsExponentMark(ss[i + 1].text[0])
    ensures Separated(ss)
  {
    forall i | 0 <= i < |ss| - 1 ensures MayFollow(ss[i], ss[i + 1]) {
    }
  }

  /** A well-formed template that matches nothing at all, though its language is not empty. */
  lemma UnseparatedMatchesNothing(d: seq<byte>)
    ensures var ss := [Integer(1, 1), Integer(1, 1)];
            && ValidSegments(ss) && WithinRules(ss) && InLanguage(ss, [ONE, ONE])
            && !Matches(ss, d)
  {
    var ss := [Integer(1, 1), Integer(1, 1)];
    assert ss[1..] == [ss[1]] && ss[1..][1..] == [];
    assert EncodeAll(ss) == EncodeSegment(ss[0]) + (EncodeSegment(ss[1]) + []);
    assert !ss[0].Literal?;
    ShortestRecordInLanguage(ss);
    assert ShortestPiece(Integer(1, 1)) == [ONE];
    ShortestRecordTail(ss);
    ShortestRecordTail(ss[1..]);
    assert ShortestRecord(ss) == [ONE, ONE];
    if Matches(ss, d) {
      TwoDigitsNeeded(d);
    }
  }

  /** The first of two one-digit segments sees every digit there is, so it never leaves one for the second. */
  lemma TwoDigitsNeeded(d: seq<byte>)
    requires GreedyRun(Integer(1, 1), d).Some?
    ensures GreedyRun(Integer(1, 1), d[GreedyRun(Integer(1, 1), d).value..]).None?
  {
    assert DigitRun(d) == 1;
    assert |d| > 1 ==> d[1..][0] == d[1];
  }

  // ---- the code

  /** `digits`: the end of the digits that start at p. */
  method Digits(d: seq<byte>, p: nat) returns (q: nat)
    requires p <= |d|
    ensures q == p + DigitRun(d[p..])
  {
    q := p;
    while q < |d| && IsDigit(d[q])
      invariant p <= q <= |d|
      invariant q + DigitRun(d[q..]) == p + DigitRun(d[p..])
    {
      assert d[q..][1..] == d[q + 1..];
      q := q + 1;
    }
  }

  /** `decimalEnd`: the end of the number that starts at p, or -1. */
  method DecimalEnd(d: seq<byte>, p: nat, fraction: bool, exponent: bool) returns (end: int)
    requires p <= |d|
    ensures end == match DecimalRun(fraction, exponent, d[p..]) { case None => -1 case Some(n) => p + n }
  {
    if p == |d| || !IsDigit(d[p]) { return -1; }
    var q;
    if d[p] == ZERO {
      q := p + 1;
      if q < |d| && IsDigit(d[q]) { return -1; }
    } else {
      q := Digits(d, p);
    }
    assert IntegerRun(d[p..]) == Some(q - p);
    assert d[p..][q - p..] == d[q..];
    end := SuffixEnd(d, q, fraction, exponent);
  }

  method FractionEnd(d: seq<byte>, p: nat, allowed: bool) returns (end: int)
    requires p <= |d|
    ensures end == match FractionRun(allowed, d[p..]) { case None => -1 case Some(n) => p + n }
  {
    end := p;
    if allowed && p < |d| && d[p] == POINT {
      var first := p + 1;
      assert d[p..][1..] == d[first..];
      end := Digits(d, first);
      if end == first { return -1; }
    }
  }

  method ExponentEnd(d: seq<byte>, p: nat, allowed: bool) returns (end: int)
    requires p <= |d|
    ensures end == match ExponentRun(allowed, d[p..]) { case None => -1 case Some(n) => p + n }
  {
    end := p;
    if allowed && p < |d| && IsExponentMark(d[p]) {
      var first := if p + 1 < |d| && IsSign(d[p + 1]) then p + 2 else p + 1;
      assert d[p..][first - p..] == d[first..];
      end := Digits(d, first);
      if end == first { return -1; }
    }
  }

  /** The end of the fraction and the exponent that start at p, or -1. */
  method SuffixEnd(d: seq<byte>, p: nat, fraction: bool, exponent: bool) returns (end: int)
    requires p <= |d|
    ensures end == match SuffixRun(fraction, exponent, d[p..]) { case None => -1 case Some(n) => p + n }
  {
    var q := FractionEnd(d, p, fraction);
    if q < 0 { return -1; }
    assert d[p..][q - p..] == d[q..];
    end := ExponentEnd(d, q, exponent);
  }

  /** Whether the literal at byte `from` of the template is at p in the data. */
  method LiteralEnd(t: seq<byte>, from: nat, n: nat, d: seq<byte>, p: nat) returns (end: int)
    requires from + n <= |t| && p <= |d|
    ensures end == if t[from..from + n] <= d[p..] then p + n else -1
  {
    if p + n > |d| { return -1; }
    for i := 0 to n
      invariant t[from..from + i] == d[p..p + i]
    {
      if d[p + i] != t[from + i] {
        assert t[from..from + n][i] != d[p..][i];
        return -1;
      }
      assert t[from..from + i + 1] == t[from..from + i] + [t[from + i]];
      assert d[p..p + i + 1] == d[p..p + i] + [d[p + i]];
    }
    assert d[p..][..n] == d[p..p + n];
    end := p + n;
  }

  /** Whether n hex digits start at p. */
  method HexEnd(n: nat, d: seq<byte>, p: nat) returns (end: int)
    requires p <= |d|
    ensures end == if n <= |d[p..]| && forall i :: 0 <= i < n ==> IsHexDigit(d[p..][i]) then p + n else -1
  {
    if p + n > |d| { return -1; }
    var q := p;
    while q < p + n
      invariant p <= q <= p + n
      invariant forall i :: 0 <= i < q - p ==> IsHexDigit(d[p..][i])
    {
      if !IsDigit(d[q]) && (d[q] < 0x61 || d[q] > 0x66) {
        assert !IsHexDigit(d[p..][q - p]);
        return -1;
      }
      assert d[p..][q - p] == d[q];
      q := q + 1;
    }
    end := q;
  }

  /** The segment at byte `at`, the byte after it, and where what it takes of the data from p on ends, or -1. */
  ghost predicate SegmentEnds(t: seq<byte>, at: nat, d: seq<byte>, p: nat, end: int, next: nat) {
    && at < |t| && p <= |d| && HeadSegment(t[at..]).Some?
    && var s := HeadSegment(t[at..]).value;
       && next == at + |EncodeSegment(s)|
       && end == match GreedyRun(s, d[p..]) { case None => -1 case Some(n) => p + n }
  }

  /** One pass of the matcher's loop: where the segment at `at` ends in the data, or -1, and the next segment. */
  method MatchSegment(t: seq<byte>, at: nat, d: seq<byte>, p: nat) returns (end: int, next: nat)
    requires at < |t| && p <= |d| && HeadSegment(t[at..]).Some?
    ensures SegmentEnds(t, at, d, p, end, next)
  {
    HeadAt(t, at);
    var op := t[at];
    if op == LITERAL {
      end := LiteralEnd(t, at + 2, t[at + 1], d, p);
      next := at + 2 + t[at + 1];
    } else if op == HEX {
      end := HexEnd(t[at + 1], d, p);
      next := at + 2;
    } else if op == DECIMAL {
      end := DecimalEnd(d, p, t[at + 1] % 2 == 1, t[at + 1] >= 2);
      next := at + 2;
    } else {
      next := at + 3;
      if p == |d| || !IsDigit(d[p]) || d[p] == ZERO { return -1, next; }
      end := Digits(d, p);
      var count := end - p;
      if count < t[at + 1] || count > t[at + 2] { end := -1; }
    }
  }

  /** The segments still to match encode the rest of the template: the next one is at `at`. */
  lemma NextSegment(todo: seq<Segment>, t: seq<byte>, at: nat)
    requires ValidSegments(todo) && at < |t| && t[at..] == EncodeAll(todo)
    ensures todo != [] && HeadSegment(t[at..]) == Some(todo[0])
    ensures var next := at + |EncodeSegment(todo[0])|; next <= |t| && t[next..] == EncodeAll(todo[1..])
  {
    assert t[at..] != [];
    HeadOfEncoding(todo[0], EncodeAll(todo[1..]));
    assert t[at + |EncodeSegment(todo[0])|..] == t[at..][|EncodeSegment(todo[0])|..];
  }

  lemma RestOfTemplate(todo: seq<Segment>, t: seq<byte>, at: nat, next: nat)
    requires ValidSegments(todo) && at < |t| && t[at..] == EncodeAll(todo) && todo != []
    requires next == at + |EncodeSegment(todo[0])|
    ensures next <= |t| && t[next..] == EncodeAll(todo[1..])
  {
    NextSegment(todo, t, at);
  }

  /** Where the first segment ends at `end`, the match goes on from there; where it ends nowhere, there is none. */
  lemma MatchesUnfold(todo: seq<Segment>, d: seq<byte>, p: nat, end: int)
    requires ValidSegments(todo) && todo != [] && p <= |d|
    requires end == match GreedyRun(todo[0], d[p..]) { case None => -1 case Some(n) => p + n }
    ensures end < 0 ==> !Matches(todo, d[p..])
    ensures end >= 0 ==> end <= |d| && (Matches(todo, d[p..]) <==> Matches(todo[1..], d[end..]))
  {
    var run := GreedyRun(todo[0], d[p..]);
    if run.Some? { assert d[p..][run.value..] == d[end..]; }
  }

  /** Where the matcher's loop stands: what is left of template and data decides the match. */
  ghost predicate Pending(ss: seq<Segment>, t: seq<byte>, d: seq<byte>, todo: seq<Segment>, at: nat, p: nat) {
    && at <= |t| && p <= |d|
    && ValidSegments(todo) && t[at..] == EncodeAll(todo)
    && ValidSegments(ss) && (Matches(ss, d) <==> Matches(todo, d[p..]))
  }

  lemma SegmentEndsAt(t: seq<byte>, at: nat, d: seq<byte>, p: nat, end: int, next: nat, s: Segment)
    requires SegmentEnds(t, at, d, p, end, next) && HeadSegment(t[at..]) == Some(s)
    ensures next == at + |EncodeSegment(s)| > at
    ensures end == match GreedyRun(s, d[p..]) { case None => -1 case Some(n) => p + n }
  {
  }

  lemma PendingStart(ss: seq<Segment>, t: seq<byte>, d: seq<byte>)
    requires ValidSegments(ss) && EncodeAll(ss) == t
    ensures Pending(ss, t, d, ss, 0, 0)
  {
    assert t[0..] == t && d[0..] == d;
  }

  lemma PendingEnd(ss: seq<Segment>, t: seq<byte>, d: seq<byte>, todo: seq<Segment>, p: nat)
    requires Pending(ss, t, d, todo, |t|, p)
    ensures Matches(ss, d) <==> p == |d|
  {
    assert t[|t|..] == [];
  }

  /** One pass of the loop: it fails only where nothing matches, and otherwise leaves a match of the rest. */
  method MatchNext(t: seq<byte>, d: seq<byte>, at: nat, p: nat, ghost ss: seq<Segment>, ghost todo: seq<Segment>)
      returns (end: int, next: nat)
    requires Pending(ss, t, d, todo, at, p) && at < |t|
    ensures end < 0 ==> !Matches(ss, d)
    ensures end >= 0 ==> at < next && todo != [] && Pending(ss, t, d, todo[1..], next, end)
  {
    NextSegment(todo, t, at);
    end, next := MatchSegment(t, at, d, p);
    SegmentEndsAt(t, at, d, p, end, next, todo[0]);
    RestOfTemplate(todo, t, at, next);
    MatchesUnfold(todo, d, p, end);
  }

  /** The matcher's loop over a template that encodes the segments ss. */
  method MatchAll(t: seq<byte>, d: seq<byte>, ghost ss: seq<Segment>) returns (r: bool)
    requires ValidSegments(ss) && EncodeAll(ss) == t
    ensures r <==> Matches(ss, d)
  {
    var at, p := 0, 0;
    ghost var todo := ss;
    PendingStart(ss, t, d);
    while at < |t|
      invariant Pending(ss, t, d, todo, at, p)
      decreases |t| - at
    {
      var end, next := MatchNext(t, d, at, p, ss, todo);
      if end < 0 { return false; }
      p, at, todo := end, next, todo[1..];
    }
    PendingEnd(ss, t, d, todo, p);
    r := p == |d|;
  }

  /** Whether a template accepts data: it is well-formed, and its segments, each greedy, consume the data exactly. */
  ghost predicate AcceptsData(t: seq<byte>, d: seq<byte>) {
    1 <= |d| <= MAX_DATA_BYTES && exists ss :: Describes(t, ss) && Matches(ss, d)
  }

  /** `matchesDataTemplate`: whether data is exactly a record the template describes; false for a malformed template. */
  method MatchesDataTemplate(t: seq<byte>, d: seq<byte>) returns (r: bool)
    ensures r <==> AcceptsData(t, d)
  {
    var problem := TemplateProblem(t);
    if problem.Some? || |d| == 0 || |d| > MAX_DATA_BYTES { return false; }
    ghost var ss :| Describes(t, ss);
    forall rs | Describes(t, rs) ensures rs == ss { DescribesUnique(t, rs, ss); }
    r := MatchAll(t, d, ss);
  }
}
