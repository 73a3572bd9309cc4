/**
 The data of a beacon epoch (src/beacon.ts): a round number in canonical decimal, checked by the template
 INTEGER(1, 19). The codec is a bijection between the rounds below 10^19 and the data the template accepts.
 */
module BeaconCodec {
  import opened Common
  import opened Arithmetic
  import opened Templates
  import opened Matcher

  const ROUND_DIGITS := 19
  const ROUND_LIMIT := 10_000_000_000_000_000_000

  const BEACON_SEGMENTS: seq<Segment> := [Integer(1, ROUND_DIGITS)]
  const BEACON_TEMPLATE: seq<byte> := [0x04, 0x01, 0x13]

  /** The built-in template is the encoding of its segment, and it is well-formed and separated. */
  lemma BeaconTemplateDescribed()
    ensures Describes(BEACON_TEMPLATE, BEACON_SEGMENTS) && Separated(BEACON_SEGMENTS)
  {
    assert BEACON_SEGMENTS[1..] == [];
    assert EncodeAll(BEACON_SEGMENTS) == EncodeSegment(BEACON_SEGMENTS[0]) + [];
    assert !BEACON_SEGMENTS[0].Literal?;
    assert TotalShortest(BEACON_SEGMENTS) == 1 + TotalShortest([]);
  }

  // ---- decimal

  function ToDecimal(n: nat): (d: seq<byte>)
    ensures |d| >= 1
  {
    if n < 10 then [ZERO + n] else ToDecimal(n / 10) + [ZERO + n % 10]
  }

  function FromDecimal(d: seq<byte>): (n: nat)
    requires forall i :: 0 <= i < |d| ==> IsDigit(d[i])
  {
    if d == [] then 0 else assert IsDigit(d[|d| - 1]); 10 * FromDecimal(d[..|d| - 1]) + (d[|d| - 1] - ZERO)
  }

  ghost function Pow10(k: nat): nat {
    if k == 0 then 1 else 10 * Pow10(k - 1)
  }

  /** Canonical decimal: digits without a leading zero. */
  ghost predicate Canonical(d: seq<byte>) {
    Digits1(d) && d[0] != ZERO
  }

  lemma {:induction false} DecimalRoundTrip(n: nat)
    requires n > 0
    ensures Canonical(ToDecimal(n)) && FromDecimal(ToDecimal(n)) == n
    ensures Pow10(|ToDecimal(n)| - 1) <= n < Pow10(|ToDecimal(n)|)
  {
    if n >= 10 {
      DecimalRoundTrip(n / 10);
      var d := ToDecimal(n);
      assert d[..|d| - 1] == ToDecimal(n / 10);
    }
  }

  lemma {:induction false} DecimalInverse(d: seq<byte>)
    requires Canonical(d)
    ensures FromDecimal(d) > 0 && ToDecimal(FromDecimal(d)) == d
  {
    var last := |d| - 1;
    if last == 0 {
      assert d[..0] == [];
    } else {
      DecimalInverse(d[..last]);
      var q := FromDecimal(d[..last]);
      assert FromDecimal(d) / 10 == q && FromDecimal(d) % 10 == d[last] - ZERO;
      assert d == d[..last] + [d[last]];
    }
  }

  lemma {:induction false} Pow10Monotone(a: nat, b: nat)
    requires a <= b
    ensures Pow10(a) <= Pow10(b)
  {
    if a < b { Pow10Monotone(a, b - 1); }
  }

  lemma Pow10Nineteen()
    ensures Pow10(ROUND_DIGITS) == ROUND_LIMIT
  {
    assert Pow10(4) == 10000;
    assert Pow10(9) == 1_000_000_000 by { assert Pow10(6) == 1_000_000; }
    assert Pow10(14) == 100_000_000_000_000 by { assert Pow10(11) == 100_000_000_000; }
    assert Pow10(19) == ROUND_LIMIT by { assert Pow10(16) == 10_000_000_000_000_000; }
  }

  /** A number has at most 19 digits exactly when it is below the limit. */
  lemma DigitsBelowLimit(n: nat)
    requires n > 0
    ensures |ToDecimal(n)| <= ROUND_DIGITS <==> n < ROUND_LIMIT
  {
    DecimalRoundTrip(n);
    Pow10Nineteen();
    var k := |ToDecimal(n)|;
    if k <= ROUND_DIGITS { Pow10Monotone(k, ROUND_DIGITS); } else { Pow10Monotone(ROUND_DIGITS, k - 1); }
  }

  // ---- the codec

  /** The data the beacon template accepts is canonical decimal of 1 to 19 digits. */
  lemma BeaconDataIsCanonical(d: seq<byte>)
    ensures Matches(BEACON_SEGMENTS, d) <==> Canonical(d) && |d| <= ROUND_DIGITS
  {
    assert BEACON_SEGMENTS[1..] == [];
    if Canonical(d) && |d| <= ROUND_DIGITS {
      DigitRunStops(d, []);
      assert d + [] == d;
    }
    if Matches(BEACON_SEGMENTS, d) {
      var n := GreedyRun(BEACON_SEGMENTS[0], d).value;
      assert Matches(BEACON_SEGMENTS[1..], d[n..]);
      assert n == |d|;
    }
  }

  /** `encodeBeaconRound`: the round in decimal; a round below 1 or of more than 19 digits throws. */
  function EncodeBeaconRound(round: int): (r: Option<seq<byte>>)
    ensures r.Some? <==> 1 <= round < 10_000_000_000_000_000_000
  {
    if round < 1 then None
    else
      DigitsBelowLimit(round);
      if |ToDecimal(round)| > ROUND_DIGITS then None else Some(ToDecimal(round))
  }

  /** `decodeBeaconRound`: the round of data that is exactly a canonical round number; any other data throws. */
  method DecodeBeaconRound(d: seq<byte>) returns (r: Option<int>)
    ensures r.Some? <==> exists round :: EncodeBeaconRound(round) == Some(d)
    ensures r.Some? ==> EncodeBeaconRound(r.value) == Some(d) && r.value <= MAX_UINT64
  {
    BeaconTemplateDescribed();
    BeaconDataIsCanonical(d);
    forall ss | Describes(BEACON_TEMPLATE, ss) ensures ss == BEACON_SEGMENTS {
      DescribesUnique(BEACON_TEMPLATE, ss, BEACON_SEGMENTS);
    }
    EncodedIsCanonical(d);
    var ok := MatchesDataTemplate(BEACON_TEMPLATE, d);
    if !ok { return None; }
    DecimalInverse(d);
    DigitsBelowLimit(FromDecimal(d));
    return Some(FromDecimal(d));
  }

  lemma NestedQuotient(n: nat, k: nat)
    ensures Pow10(k) > 0 && n / 10 / Pow10(k) == n / Pow10(k + 1)
  {
    PowPositive(k);
    QuotientOfQuotient(n, Pow10(k));
  }

  lemma {:induction false} PowPositive(k: nat)
    ensures Pow10(k) > 0
  {
    if k > 0 { PowPositive(k - 1); }
  }

  lemma QuotientOfQuotient(n: nat, p: nat)
    requires p > 0
    ensures n / 10 / p == n / (10 * p)
  {
    DivMod(n / 10, p);
    var q, r := n / 10 / p, n / 10 % p;
    assert n == (q * p + r) * 10 + n % 10;
    assert (q * p + r) * 10 == q * (10 * p) + r * 10;
    DivModOf(q, r * 10 + n % 10, 10 * p);
  }

  /** The digits of a number, from the last: its tens, hundreds and so on, each as its character. */
  lemma {:induction false} DigitAt(n: nat, k: nat)
    requires k < |ToDecimal(n)|
    ensures Pow10(k) > 0 && ToDecimal(n)[|ToDecimal(n)| - 1 - k] == 0x30 + n / Pow10(k) % 10
  {
    PowPositive(k);
    if k > 0 {
      assert n >= 10 && k - 1 < |ToDecimal(n / 10)|;
      DigitAt(n / 10, k - 1);
      NestedQuotient(n, k - 1);
    }
  }

  /** A round is written with its own digits, and with as many as it has. */
  lemma RoundInDigits(round: int, k: nat)
    requires EncodeBeaconRound(round).Some?
    ensures var d := EncodeBeaconRound(round).value;
            && 1 <= |d| <= 19 && Pow10(|d| - 1) <= round < Pow10(|d|)
            && (k < |d| ==> Pow10(k) > 0 && d[|d| - 1 - k] == 0x30 + round / Pow10(k) % 10)
  {
    DecimalRoundTrip(round);
    if k < |ToDecimal(round)| { DigitAt(round, k); }
  }

  /** The encodings of rounds are exactly the data the template accepts, and each encodes one round. */
  lemma EncodedIsCanonical(d: seq<byte>)
    ensures (exists round :: EncodeBeaconRound(round) == Some(d)) <==> Canonical(d) && |d| <= ROUND_DIGITS
    ensures forall r, s :: EncodeBeaconRound(r) == Some(d) && EncodeBeaconRound(s) == Some(d) ==> r == s
  {
    forall r | EncodeBeaconRound(r) == Some(d) ensures Canonical(d) && |d| <= ROUND_DIGITS && r == FromDecimal(d) {
      DecimalRoundTrip(r);
    }
    if Canonical(d) && |d| <= ROUND_DIGITS {
      DecimalInverse(d);
      DigitsBelowLimit(FromDecimal(d));
      assert EncodeBeaconRound(FromDecimal(d)) == Some(d);
    }
  }
}
