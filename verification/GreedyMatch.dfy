/**
 What the greedy matcher (`matchesDataTemplate`, src/templates.ts) accepts for every template, separated or not: the
 data that the segments spell with pieces none of which the byte behind it would lengthen.
 */
module GreedyMatch {
  import opened Common
  import opened Templates
  import opened Matcher
  import opened TemplateBytes

  ghost predicate HasExponent(p: seq<byte>) {
    0x65 in p || 0x45 in p
  }

  /** A byte behind a piece that the matcher would take for the segment as well. */
  ghost predicate Lengthens(s: Segment, p: seq<byte>, c: byte) {
    match s
    case Literal(_) => false
    case Hex(_) => false
    case Integer(_, _) => 0x30 <= c <= 0x39
    case Decimal(fraction, exponent) =>
      || 0x30 <= c <= 0x39
      || (fraction && c == 0x2e && 0x2e !in p && !HasExponent(p))
      || (exponent && (c == 0x65 || c == 0x45) && !HasExponent(p))
  }

  /** The first n bytes are a piece of the segment, and the next does not lengthen it. */
  ghost predicate Longest(s: Segment, d: seq<byte>, n: nat) {
    n <= |d| && Spells(s, d[..n]) && (n < |d| ==> !Lengthens(s, d[..n], d[n]))
  }

  // ---- runs

  lemma DigitRunIff(d: seq<byte>, n: nat)
    requires n <= |d|
    ensures DigitRun(d) == n <==>
            (forall i :: 0 <= i < n ==> 0x30 <= d[i] <= 0x39) && (n < |d| ==> !(0x30 <= d[n] <= 0x39))
  {
  }

  lemma IntegerRunIff(d: seq<byte>, n: nat)
    requires n <= |d|
    ensures IntegerRun(d) == Some(n) <==> IntegerOf(d[..n]) && (n < |d| ==> !(0x30 <= d[n] <= 0x39))
  {
    DigitRunIff(d, n);
  }

  lemma FractionRunIff(allowed: bool, d: seq<byte>, n: nat)
    requires n <= |d|
    ensures FractionRun(allowed, d) == Some(n) <==>
            if n == 0 then !(allowed && d != [] && d[0] == 0x2e)
            else allowed && FractionOf(d[..n]) && (n < |d| ==> !(0x30 <= d[n] <= 0x39))
  {
    if n > 0 {
      DigitRunIff(d[1..], n - 1);
      assert d[..n][1..] == d[1..][..n - 1];
    }
  }

  lemma SignedRunIff(d: seq<byte>, n: nat, head: nat)
    requires 1 <= head <= n <= |d|
    ensures DigitRun(d[head..]) == n - head > 0 <==>
            AllDigits(d[..n][head..]) && (n < |d| ==> !(0x30 <= d[n] <= 0x39))
  {
    DigitRunIff(d[head..], n - head);
    assert d[..n][head..] == d[head..][..n - head];
  }

  lemma ExponentRunIff(allowed: bool, d: seq<byte>, n: nat)
    requires n <= |d|
    ensures ExponentRun(allowed, d) == Some(n) <==>
            if n == 0 then !(allowed && d != [] && (d[0] == 0x65 || d[0] == 0x45))
            else allowed && ExponentOf(d[..n]) && (n < |d| ==> !(0x30 <= d[n] <= 0x39))
  {
    if n > 0 {
      SignedRunIff(d, n, 1);
      if n >= 2 {
        SignedRunIff(d, n, 2);
        assert d[..n][1..][0] == d[1];
      }
    }
  }

  // ---- numbers

  /** The lengths of a number's parts at the front of the data, each of them the longest. */
  ghost predicate PartLengths(fraction: bool, exponent: bool, d: seq<byte>, i: nat, f: nat, e: nat) {
    && i + f + e <= |d| && IntegerRun(d) == Some(i) && FractionRun(fraction, d[i..]) == Some(f)
    && ExponentRun(exponent, d[i + f..]) == Some(e)
  }

  lemma PartsRun(fraction: bool, exponent: bool, d: seq<byte>, i: nat, f: nat, e: nat)
    requires PartLengths(fraction, exponent, d, i, f, e)
    ensures DecimalRun(fraction, exponent, d) == Some(i + f + e)
  {
    assert d[i..][f..] == d[i + f..];
  }

  lemma RunParts(fraction: bool, exponent: bool, d: seq<byte>) returns (i: nat, f: nat, e: nat)
    requires DecimalRun(fraction, exponent, d).Some?
    ensures PartLengths(fraction, exponent, d, i, f, e) && DecimalRun(fraction, exponent, d) == Some(i + f + e)
  {
    i := IntegerRun(d).value;
    f := FractionRun(fraction, d[i..]).value;
    assert d[i..][f..] == d[i + f..];
    e := ExponentRun(exponent, d[i + f..]).value;
  }

  lemma CutInThree(d: seq<byte>, i: nat, f: nat, e: nat)
    requires i + f + e <= |d|
    ensures d[..i + f + e] == d[..i] + (d[i..][..f] + d[i + f..][..e])
  {
  }

  /** Which bytes the parts of a number have. */
  lemma PartBytes(a: seq<byte>, b: seq<byte>, c: seq<byte>)
    requires IntegerOf(a) && (b == [] || FractionOf(b)) && (c == [] || ExponentOf(c))
    ensures HasExponent(a + (b + c)) <==> c != []
    ensures c == [] ==> (0x2e in a + (b + c) <==> b != [])
  {
    var p := a + (b + c);
    forall k | 0 <= k < |b| ensures b[k] != 0x65 && b[k] != 0x45 {
      if k > 0 { assert b[k] == b[1..][k - 1]; }
    }
    if b != [] { assert p[|a|] == b[0]; }
    if c != [] { assert p[|a| + |b|] == c[0]; }
  }

  lemma PartsAreLongest(fraction: bool, exponent: bool, d: seq<byte>, i: nat, f: nat, e: nat)
    requires PartLengths(fraction, exponent, d, i, f, e)
    ensures Longest(Decimal(fraction, exponent), d, i + f + e)
  {
    var a, b, c := d[..i], d[i..][..f], d[i + f..][..e];
    IntegerRunIff(d, i);
    FractionRunIff(fraction, d[i..], f);
    ExponentRunIff(exponent, d[i + f..], e);
    CutInThree(d, i, f, e);
    assert NumberParts(fraction, exponent, a, b, c);
    PartBytes(a, b, c);
    var n := i + f + e;
    if n < |d| {
      assert d[i..][f..] == d[i + f..];
      if f + e > 0 { assert d[i..][f] == d[i + f] || e > 0; }
      assert d[i + f..][e] == d[n];
    }
  }

  lemma LongestHasParts(fraction: bool, exponent: bool, d: seq<byte>, a: seq<byte>, b: seq<byte>, c: seq<byte>)
    requires NumberParts(fraction, exponent, a, b, c) && a + (b + c) <= d
    requires var n := |a| + |b| + |c|;
             n < |d| ==> !Lengthens(Decimal(fraction, exponent), a + (b + c), d[n])
    ensures PartLengths(fraction, exponent, d, |a|, |b|, |c|)
  {
    var p, n := a + (b + c), |a| + |b| + |c|;
    PartBytes(a, b, c);
    assert d[..n] == p;
    assert d[..|a|] == a && d[|a|..][..|b|] == b && d[|a| + |b|..][..|c|] == c;
    if b != [] { assert d[|a|] == b[0]; }
    if c != [] { assert d[|a| + |b|] == c[0]; }
    IntegerRunIff(d, |a|);
    FractionRunIff(fraction, d[|a|..], |b|);
    ExponentRunIff(exponent, d[|a| + |b|..], |c|);
  }

  lemma LongestIsRun(fraction: bool, exponent: bool, d: seq<byte>, n: nat)
    requires Longest(Decimal(fraction, exponent), d, n)
    ensures DecimalRun(fraction, exponent, d) == Some(n)
  {
    var a, b, c :| NumberParts(fraction, exponent, a, b, c) && d[..n] == a + (b + c);
    LongestHasParts(fraction, exponent, d, a, b, c);
    PartsRun(fraction, exponent, d, |a|, |b|, |c|);
  }

  lemma RunIsLongest(fraction: bool, exponent: bool, d: seq<byte>)
    requires DecimalRun(fraction, exponent, d).Some?
    ensures Longest(Decimal(fraction, exponent), d, DecimalRun(fraction, exponent, d).value)
  {
    var i, f, e := RunParts(fraction, exponent, d);
    PartsAreLongest(fraction, exponent, d, i, f, e);
  }

  // ---- the matcher

  lemma RunIff(s: Segment, d: seq<byte>, n: nat)
    requires ValidSegment(s)
    ensures GreedyRun(s, d) == Some(n) <==> Longest(s, d, n)
  {
    match s
    case Literal(text) =>
    case Hex(length) =>
    case Decimal(fraction, exponent) =>
      if DecimalRun(fraction, exponent, d).Some? { RunIsLongest(fraction, exponent, d); }
      if Longest(s, d, n) { LongestIsRun(fraction, exponent, d, n); }
    case Integer(least, most) => if n <= |d| { DigitRunIff(d, n); }
  }

  /** The segments spell the data with longest pieces, one behind the other. */
  ghost predicate SpelledLongest(ss: seq<Segment>, d: seq<byte>)
    decreases |ss|
  {
    if ss == [] then d == [] else exists n :: 0 <= n <= |d| && Longest(ss[0], d, n) && SpelledLongest(ss[1..], d[n..])
  }

  lemma {:induction false} MatchesIffLongest(ss: seq<Segment>, d: seq<byte>)
    requires ValidSegments(ss)
    ensures Matches(ss, d) <==> SpelledLongest(ss, d)
    decreases |ss|
  {
    if ss != [] {
      forall n: nat ensures GreedyRun(ss[0], d) == Some(n) <==> Longest(ss[0], d, n) { RunIff(ss[0], d, n); }
      if GreedyRun(ss[0], d).Some? { MatchesIffLongest(ss[1..], d[GreedyRun(ss[0], d).value..]); }
    }
  }

  /** A template accepts records of 1 to 128 bytes that its segments spell with longest pieces. */
  lemma AcceptsIffLongest(t: seq<byte>, ss: seq<Segment>, d: seq<byte>)
    requires Describes(t, ss)
    ensures AcceptsData(t, d) <==> 1 <= |d| <= 128 && SpelledLongest(ss, d)
  {
    forall rs | Describes(t, rs) ensures rs == ss { DescribesUnique(t, rs, ss); }
    MatchesIffLongest(ss, d);
  }
}
