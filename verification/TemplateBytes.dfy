/**
 Data templates byte by byte (src/templates.ts): the bytes that encode a segment, the data a segment stands for, and the
 rules a template keeps. Numbers follow section 6 of RFC 8259, without a sign.
 */
module TemplateBytes {
  import opened Common
  import opened Templates
  import opened Matcher

  // ---- the encoding

  /** What the encoder takes: texts, lengths and digit counts from 1 to 128. */
  ghost predicate Encodable(s: Segment) {
    match s
    case Literal(text) => 1 <= |text| <= 128
    case Hex(length) => 1 <= length <= 128
    case Decimal(_, _) => true
    case Integer(least, most) => 1 <= least <= most <= 128
  }

  lemma EncodableIff(s: Segment)
    ensures ValidSegment(s) <==> Encodable(s)
  {
  }

  /** The bytes of one segment: its operation, its operands and, of a literal, its text. */
  ghost predicate IsEncoding(bytes: seq<byte>, s: Segment) {
    match s
    case Literal(text) => |bytes| == 2 + |text| && bytes[0] == 1 && bytes[1] == |text| && bytes[2..] == text
    case Hex(length) => |bytes| == 2 && bytes[0] == 2 && bytes[1] == length
    case Decimal(fraction, exponent) =>
      |bytes| == 2 && bytes[0] == 3 && bytes[1] == (if fraction then 1 else 0) + (if exponent then 2 else 0)
    case Integer(least, most) => |bytes| == 3 && bytes[0] == 4 && bytes[1] == least && bytes[2] == most
  }

  lemma SegmentBytes(s: Segment)
    requires Encodable(s)
    ensures ValidSegments([s]) && IsEncoding(EncodeAll([s]), s)
  {
    assert [s][1..] == [];
    assert EncodeAll([s]) == EncodeSegment(s) + [];
  }

  /** A template's bytes are those of its segments, one behind the other. */
  lemma {:induction false} EncodingJoins(a: seq<Segment>, b: seq<Segment>)
    requires ValidSegments(a) && ValidSegments(b)
    ensures ValidSegments(a + b) && EncodeAll(a + b) == EncodeAll(a) + EncodeAll(b)
  {
    if a == [] {
      assert a + b == b;
    } else {
      EncodingJoins(a[1..], b);
      assert (a + b)[0] == a[0] && (a + b)[1..] == a[1..] + b;
      assert ValidSegments(a + b) by {
        forall i | 0 <= i < |a + b| ensures ValidSegment((a + b)[i]) {
        }
      }
      Regroup(EncodeSegment(a[0]), EncodeAll(a[1..]), EncodeAll(b), []);
    }
  }

  // ---- the language

  ghost predicate AllDigits(d: seq<byte>) {
    |d| >= 1 && forall i :: 0 <= i < |d| ==> 0x30 <= d[i] <= 0x39
  }

  /** int: zero, or digits of which the first is not zero. */
  ghost predicate IntegerOf(d: seq<byte>) {
    AllDigits(d) && (|d| == 1 || d[0] != 0x30)
  }

  /** frac: a point and digits. */
  ghost predicate FractionOf(d: seq<byte>) {
    |d| >= 2 && d[0] == 0x2e && AllDigits(d[1..])
  }

  /** exp: e or E, a sign or none, and digits. */
  ghost predicate ExponentOf(d: seq<byte>) {
    && |d| >= 2 && (d[0] == 0x65 || d[0] == 0x45)
    && (AllDigits(d[1..]) || (|d| >= 3 && (d[1] == 0x2b || d[1] == 0x2d) && AllDigits(d[2..])))
  }

  /** A number: an int, a frac or none, and an exp or none. */
  ghost predicate NumberOf(fraction: bool, exponent: bool, d: seq<byte>) {
    exists a, b, c :: NumberParts(fraction, exponent, a, b, c) && d == a + (b + c)
  }

  ghost predicate NumberParts(fraction: bool, exponent: bool, a: seq<byte>, b: seq<byte>, c: seq<byte>) {
    && IntegerOf(a) && (b == [] || (fraction && FractionOf(b))) && (c == [] || (exponent && ExponentOf(c)))
  }

  /** What a segment stands for. */
  ghost predicate Spells(s: Segment, d: seq<byte>) {
    match s
    case Literal(text) => d == text
    case Hex(length) => |d| == length && forall i :: 0 <= i < |d| ==> 0x30 <= d[i] <= 0x39 || 0x61 <= d[i] <= 0x66
    case Decimal(fraction, exponent) => NumberOf(fraction, exponent, d)
    case Integer(least, most) => least <= |d| <= most && AllDigits(d) && d[0] != 0x30
  }

  lemma NumberPartsIff(fraction: bool, exponent: bool, a: seq<byte>, b: seq<byte>, c: seq<byte>)
    ensures NumberParts(fraction, exponent, a, b, c) <==> DecimalParts(fraction, exponent, a, b, c)
  {
  }

  lemma SpellsIff(s: Segment, d: seq<byte>)
    ensures InSegment(s, d) <==> Spells(s, d)
  {
    if s.Decimal? {
      forall a, b, c
        ensures NumberParts(s.fraction, s.exponent, a, b, c) <==> DecimalParts(s.fraction, s.exponent, a, b, c)
      {
        NumberPartsIff(s.fraction, s.exponent, a, b, c);
      }
    }
  }

  /** The data of a template: what its segments spell, one behind the other. */
  ghost predicate Spelled(ss: seq<Segment>, d: seq<byte>)
    decreases |ss|
  {
    if ss == [] then d == []
    else exists n :: 0 <= n <= |d| && Spells(ss[0], d[..n]) && Spelled(ss[1..], d[n..])
  }

  lemma {:induction false} ParsedIsSpelled(ss: seq<Segment>, pieces: seq<seq<byte>>, d: seq<byte>)
    requires IsParse(ss, pieces, d)
    ensures Spelled(ss, d)
    decreases |ss|
  {
    if ss != [] {
      ParseTail(ss, pieces, d);
      ParsedIsSpelled(ss[1..], pieces[1..], Flatten(pieces[1..]));
      SpellsIff(ss[0], pieces[0]);
      var n := |pieces[0]|;
      assert d[..n] == pieces[0] && d[n..] == Flatten(pieces[1..]);
    }
  }

  lemma ParseCons(ss: seq<Segment>, piece: seq<byte>, rest: seq<seq<byte>>, d: seq<byte>)
    requires ss != [] && InSegment(ss[0], piece) && IsParse(ss[1..], rest, d)
    ensures IsParse(ss, [piece] + rest, piece + d)
  {
    var pieces := [piece] + rest;
    assert pieces[1..] == rest;
    forall i | 0 <= i < |ss| ensures InSegment(ss[i], pieces[i]) {
      if i > 0 { assert ss[i] == ss[1..][i - 1] && pieces[i] == rest[i - 1]; }
    }
  }

  lemma {:induction false} SpelledIsParsed(ss: seq<Segment>, d: seq<byte>) returns (pieces: seq<seq<byte>>)
    requires Spelled(ss, d)
    ensures IsParse(ss, pieces, d)
    decreases |ss|
  {
    pieces := [];
    if ss != [] {
      var n :| 0 <= n <= |d| && Spells(ss[0], d[..n]) && Spelled(ss[1..], d[n..]);
      var rest := SpelledIsParsed(ss[1..], d[n..]);
      pieces := [d[..n]] + rest;
      SpellsIff(ss[0], d[..n]);
      assert d == d[..n] + d[n..];
      ParseCons(ss, d[..n], rest, d[n..]);
    }
  }

  lemma SpelledIff(ss: seq<Segment>, d: seq<byte>)
    ensures InLanguage(ss, d) <==> Spelled(ss, d)
  {
    if InLanguage(ss, d) {
      var pieces :| IsParse(ss, pieces, d);
      ParsedIsSpelled(ss, pieces, d);
    }
    if Spelled(ss, d) {
      var pieces := SpelledIsParsed(ss, d);
    }
  }

  // ---- the rules

  /**
   A template is the bytes of segments the encoder takes, at most 256 of them, with a segment that is not literal, and
   of its data some is at most 128 bytes long.
   */
  lemma TemplateRules(t: seq<byte>, ss: seq<Segment>)
    ensures Describes(t, ss) <==>
            && (forall i :: 0 <= i < |ss| ==> Encodable(ss[i]))
            && ValidSegments(ss) && t == EncodeAll(ss) && 1 <= |t| <= 256
            && (exists i :: 0 <= i < |ss| && !ss[i].Literal?)
            && exists d :: |d| <= 128 && Spelled(ss, d)
  {
    forall s ensures ValidSegment(s) <==> Encodable(s) { EncodableIff(s); }
    if ValidSegments(ss) {
      ShortestRecordInLanguage(ss);
      SpelledIff(ss, ShortestRecord(ss));
      if d :| |d| <= 128 && Spelled(ss, d) {
        var pieces := SpelledIsParsed(ss, d);
        NothingShorter(ss, pieces, d);
      }
    }
  }

  /** A byte goes on with a number: a digit, or a point or an e where the number may have them. */
  ghost predicate GoesOn(s: Segment, c: byte) {
    || 0x30 <= c <= 0x39
    || (s.Decimal? && s.fraction && c == 0x2e)
    || (s.Decimal? && s.exponent && (c == 0x65 || c == 0x45))
  }

  /** Behind every number that is not last stands literal text whose first byte does not go on with it. */
  lemma SeparatedIff(ss: seq<Segment>)
    ensures Separated(ss) <==>
            forall i :: 0 <= i < |ss| - 1 && (ss[i].Integer? || ss[i].Decimal?) ==>
              ss[i + 1].Literal? && ss[i + 1].text != [] && !GoesOn(ss[i], ss[i + 1].text[0])
  {
    forall i | 0 <= i < |ss| - 1
      ensures MayFollow(ss[i], ss[i + 1]) <==>
              (ss[i].Integer? || ss[i].Decimal? ==>
                 ss[i + 1].Literal? && ss[i + 1].text != [] && !GoesOn(ss[i], ss[i + 1].text[0]))
    {
    }
  }

  /**
   What a separated template accepts: records of 1 to 128 bytes that its segments spell.
   */
  lemma AcceptedBySeparated(t: seq<byte>, ss: seq<Segment>, d: seq<byte>)
    requires Describes(t, ss) && Separated(ss)
    ensures AcceptsData(t, d) <==> 1 <= |d| <= 128 && Spelled(ss, d)
  {
    forall rs | Describes(t, rs) ensures rs == ss { DescribesUnique(t, rs, ss); }
    ExactIffSeparated(ss);
    SpelledIff(ss, d);
  }
}
