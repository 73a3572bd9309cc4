/**
 `validateMapping` and `mapRandomness` (src/mapping.ts): from a request's randomness to its mapped values, and the
 proof that every outcome of an operation is exactly as likely as every other.
 */
module Mapping {
  import opened Common
  import opened Arithmetic
  import opened FisherYates
  import opened Sampling

  const RAW := 0
  const DICE_ROLL := 1
  const COIN_FLIP := 2
  const NUMBER_RANGE := 3
  const CHOOSE_ONE := 4
  const CHOOSE_MANY := 5
  const SHUFFLE := 6
  const MAX_DICE := 128
  const MAX_ITEMS := 256

  datatype MappingSpec = MappingSpec(operation: int, lower: int, upper: int, count: int, population: int)

  datatype MappingError = InvalidParameters | ExpectedRandomness

  /** Whether `validateMapping` accepts a specification; words is the number of words, one more than the largest. */
  predicate ValidMapping(words: nat, s: MappingSpec) {
    && 0 <= s.operation <= 6
    && 0 <= s.count && 0 <= s.population && 0 <= s.lower < words && 0 <= s.upper < words
    && if s.operation == RAW then s.lower == 0 && s.upper == 0 && s.count == 0 && s.population == 0
       else if s.operation == DICE_ROLL then
         s.lower == 0 && s.upper >= 2 && 1 <= s.count <= MAX_DICE && s.population == 0
       else if s.operation == COIN_FLIP then s.lower == 0 && s.upper == 0 && s.count == 1 && s.population == 0
       else if s.operation == NUMBER_RANGE then s.lower <= s.upper && s.count == 1 && s.population == 0
       else
         && s.lower == 0 && s.upper == 0 && 1 <= s.population <= MAX_ITEMS
         && (s.operation == CHOOSE_ONE ==> s.count == 1)
         && (s.operation == CHOOSE_MANY ==> 1 <= s.count <= s.population)
         && (s.operation == SHUFFLE ==> s.count == s.population)
  }

  /** The bounds an operation samples with, in order. */
  function Bounds(words: nat, s: MappingSpec): seq<nat>
    requires ValidMapping(words, s)
  {
    if s.operation == RAW then []
    else if s.operation == DICE_ROLL then seq(s.count, _ => s.upper)
    else if s.operation == COIN_FLIP then [2]
    else if s.operation == NUMBER_RANGE then [s.upper - s.lower + 1]
    else if s.operation == CHOOSE_ONE then [s.population]
    else seq(s.count, i requires 0 <= i < s.count => s.population - i)
  }

  lemma BoundsValid(words: nat, s: MappingSpec)
    requires words >= MAX_ITEMS && ValidMapping(words, s)
    ensures ValidBounds(words, Bounds(words, s))
  {
  }

  function Identity(n: nat): seq<nat> {
    seq(n, i => i)
  }

  /** Choices of the swap loop from samples: the i-th choice is i plus the i-th sample. */
  ghost function Offsets(vs: seq<nat>): seq<nat> {
    seq(|vs|, i requires 0 <= i < |vs| => i + vs[i])
  }

  ghost predicate Below(vs: seq<nat>, bounds: seq<nat>) {
    |vs| == |bounds| && forall i :: 0 <= i < |vs| ==> vs[i] < bounds[i]
  }

  ghost predicate IsSelection(s: MappingSpec) {
    s.operation == CHOOSE_MANY || s.operation == SHUFFLE
  }

  lemma OffsetsValid(words: nat, s: MappingSpec, vs: seq<nat>)
    requires ValidMapping(words, s) && IsSelection(s) && Below(vs, Bounds(words, s))
    ensures ValidChoices(Offsets(vs), 0, s.population)
  {
    forall k | 0 <= k < |vs| ensures k <= Offsets(vs)[k] < s.population {
      assert vs[k] < Bounds(words, s)[k] == s.population - k;
    }
  }

  /** Samples back from choices. */
  ghost function Gaps(js: seq<nat>, n: nat): (vs: seq<nat>)
    requires ValidChoices(js, 0, n)
  {
    seq(|js|, i requires 0 <= i < |js| => js[i] - i)
  }

  lemma OffsetsOfGaps(js: seq<nat>, n: nat)
    requires ValidChoices(js, 0, n)
    ensures Offsets(Gaps(js, n)) == js
  {
  }

  lemma GapsOfOffsets(vs: seq<nat>, n: nat)
    requires ValidChoices(Offsets(vs), 0, n)
    ensures Gaps(Offsets(vs), n) == vs
  {
  }

  // ---- selections of indices

  /** The indices below n that the swap loop picks with its choices. */
  ghost function Picked(n: nat, js: seq<nat>): seq<nat>
    requires ValidChoices(js, 0, n)
  {
    Select(Identity(n), 0, js)
  }

  ghost predicate DistinctBelow(n: nat, out: seq<nat>) {
    |out| <= n && Distinct(out) && forall i :: 0 <= i < |out| ==> out[i] < n
  }

  lemma IdentityDistinct(n: nat)
    ensures Distinct(Identity(n))
  {
  }

  lemma IndicesBelow(n: nat, out: seq<nat>)
    ensures Arrangement(out, Identity(n), 0) <==> DistinctBelow(n, out)
  {
    if DistinctBelow(n, out) {
      forall k | 0 <= k < |out| ensures out[k] in Identity(n)[0..] {
        assert Identity(n)[0..][out[k]] == out[k];
      }
    }
  }

  /** The choices that pick indices. */
  ghost function ChoicesFor(n: nat, out: seq<nat>): seq<nat>
    requires DistinctBelow(n, out)
  {
    IdentityDistinct(n);
    IndicesBelow(n, out);
    Choices(Identity(n), 0, out)
  }

  lemma ChoicesOfPicked(n: nat, js: seq<nat>)
    requires ValidChoices(js, 0, n)
    ensures DistinctBelow(n, Picked(n, js)) && |Picked(n, js)| == |js|
    ensures ChoicesFor(n, Picked(n, js)) == js
  {
    IdentityDistinct(n);
    ChoicesOfSelect(Identity(n), 0, js);
    IndicesBelow(n, Picked(n, js));
  }

  lemma PickedByChoices(n: nat, out: seq<nat>)
    requires DistinctBelow(n, out)
    ensures ValidChoices(ChoicesFor(n, out), 0, n) && |ChoicesFor(n, out)| == |out|
    ensures Picked(n, ChoicesFor(n, out)) == out
  {
    IdentityDistinct(n);
    IndicesBelow(n, out);
    SelectOfChoices(Identity(n), 0, out);
  }

  /** The mapped values of an operation whose samples are vs. */
  ghost function ValuesOf(words: nat, randomness: nat, s: MappingSpec, vs: seq<nat>): seq<nat>
    requires ValidMapping(words, s) && Below(vs, Bounds(words, s))
  {
    if s.operation == RAW then [randomness]
    else if s.operation == DICE_ROLL then seq(|vs|, i requires 0 <= i < |vs| => vs[i] + 1)
    else if s.operation == NUMBER_RANGE then [s.lower + vs[0]]
    else if IsSelection(s) then OffsetsValid(words, s, vs); Picked(s.population, Offsets(vs))
    else vs
  }

  /** The mapped values of a request: the operation's samples are taken from the stream, one after another. */
  ghost function Mapped(word: nat -> nat, words: nat, randomness: nat, s: MappingSpec): seq<nat>
    requires words >= MAX_ITEMS && ValidMapping(words, s) && Productive(word, words)
  {
    BoundsValid(words, s);
    KeptWordsAccepted(word, words, Bounds(words, s));
    ValuesOf(words, randomness, s, Samples(word, words, Bounds(words, s)))
  }

  // ---- the outcomes

  /** What an operation promises its values to be. */
  ghost predicate IsOutcome(words: nat, s: MappingSpec, values: seq<nat>)
    requires ValidMapping(words, s) && s.operation != RAW
  {
    if s.operation == DICE_ROLL then
      |values| == s.count && forall i :: 0 <= i < |values| ==> 1 <= values[i] <= s.upper
    else if s.operation == COIN_FLIP then values == [0] || values == [1]
    else if s.operation == NUMBER_RANGE then |values| == 1 && s.lower <= values[0] <= s.upper
    else if s.operation == CHOOSE_ONE then |values| == 1 && values[0] < s.population
    else |values| == s.count && DistinctBelow(s.population, values)
  }

  /** The samples that give an outcome. */
  ghost function SamplesFor(words: nat, s: MappingSpec, values: seq<nat>): (vs: seq<nat>)
    requires ValidMapping(words, s) && s.operation != RAW && IsOutcome(words, s, values)
    ensures Below(vs, Bounds(words, s))
  {
    if s.operation == DICE_ROLL then seq(|values|, i requires 0 <= i < |values| => values[i] - 1)
    else if s.operation == NUMBER_RANGE then [values[0] - s.lower]
    else if IsSelection(s) then
      PickedByChoices(s.population, values);
      Gaps(ChoicesFor(s.population, values), s.population)
    else values
  }

  lemma SamplesOfSelection(words: nat, s: MappingSpec, vs: seq<nat>)
    requires ValidMapping(words, s) && IsSelection(s) && Below(vs, Bounds(words, s))
    ensures IsOutcome(words, s, ValuesOf(words, 0, s, vs))
    ensures SamplesFor(words, s, ValuesOf(words, 0, s, vs)) == vs
  {
    OffsetsValid(words, s, vs);
    ChoicesOfPicked(s.population, Offsets(vs));
    GapsOfOffsets(vs, s.population);
  }

  lemma SelectionOfSamples(words: nat, s: MappingSpec, values: seq<nat>)
    requires ValidMapping(words, s) && IsSelection(s) && IsOutcome(words, s, values)
    ensures ValuesOf(words, 0, s, SamplesFor(words, s, values)) == values
  {
    PickedByChoices(s.population, values);
    OffsetsOfGaps(ChoicesFor(s.population, values), s.population);
  }

  /**
   The values are a bijection from sample vectors onto the outcomes: every sample vector gives an outcome, distinct
   sample vectors give distinct ones, and every outcome is given by one.
   */
  lemma ValuesAreOutcomes(words: nat, s: MappingSpec, vs: seq<nat>, values: seq<nat>)
    requires ValidMapping(words, s) && s.operation != RAW && Below(vs, Bounds(words, s))
    ensures ValuesOf(words, 0, s, vs) == values <==> IsOutcome(words, s, values) && SamplesFor(words, s, values) == vs
  {
    if IsSelection(s) {
      SamplesOfSelection(words, s, vs);
      if IsOutcome(words, s, values) { SelectionOfSamples(words, s, values); }
    } else if s.operation == DICE_ROLL {
      DiceAreOutcomes(words, s, vs, values);
    } else if s.operation == NUMBER_RANGE {
      assert |vs| == 1 && vs == [vs[0]];
    } else {
      assert |vs| == 1 && vs == [vs[0]];
    }
  }

  lemma DiceAreOutcomes(words: nat, s: MappingSpec, vs: seq<nat>, values: seq<nat>)
    requires ValidMapping(words, s) && s.operation == DICE_ROLL && Below(vs, Bounds(words, s))
    ensures ValuesOf(words, 0, s, vs) == values <==> IsOutcome(words, s, values) && SamplesFor(words, s, values) == vs
  {
    assert forall i :: 0 <= i < |vs| ==> vs[i] < Bounds(words, s)[i] == s.upper;
    if IsOutcome(words, s, values) && SamplesFor(words, s, values) == vs {
      forall i | 0 <= i < |vs| ensures values[i] == vs[i] + 1 {
        assert SamplesFor(words, s, values)[i] == values[i] - 1;
      }
    }
  }

  /** The accepted word vectors from which an operation gives these values. */
  ghost predicate Yields(words: nat, s: MappingSpec, ws: seq<nat>, values: seq<nat>)
    requires words >= MAX_ITEMS && ValidMapping(words, s)
  {
    BoundsValid(words, s);
    var bounds := Bounds(words, s);
    && AcceptedVector(words, bounds, ws)
    && ValuesOf(words, 0, s, Residues(bounds, ws)) == values
  }

  /** All of them, as a finite set. */
  ghost function Yielding(words: nat, s: MappingSpec, values: seq<nat>): set<seq<nat>>
    requires words >= MAX_ITEMS && ValidMapping(words, s) && s.operation != RAW
  {
    BoundsValid(words, s);
    if IsOutcome(words, s, values) then Vectors(Classes(words, Bounds(words, s), SamplesFor(words, s, values))) else {}
  }

  /**
   Exact uniformity of every operation: each outcome comes from the same positive number of accepted word vectors,
   and nothing else comes from any.
   */
  lemma OutcomesUniform(words: nat, s: MappingSpec, values: seq<nat>)
    requires words >= MAX_ITEMS && ValidMapping(words, s) && s.operation != RAW
    ensures ValidBounds(words, Bounds(words, s))
    ensures forall ws :: ws in Yielding(words, s, values) <==> Yields(words, s, ws, values)
    ensures |Yielding(words, s, values)| == if IsOutcome(words, s, values) then Weight(words, Bounds(words, s)) else 0
    ensures Weight(words, Bounds(words, s)) > 0
  {
    BoundsValid(words, s);
    var bounds := Bounds(words, s);
    WeightPositive(words, bounds);
    if IsOutcome(words, s, values) {
      ResiduesUniform(words, bounds, SamplesFor(words, s, values));
    }
    forall ws ensures ws in Yielding(words, s, values) <==> Yields(words, s, ws, values) {
      if AcceptedVector(words, bounds, ws) {
        ValuesAreOutcomes(words, s, Residues(bounds, ws), values);
      }
    }
  }

  lemma WeightPositive(words: nat, bounds: seq<nat>)
    requires ValidBounds(words, bounds)
    ensures Weight(words, bounds) > 0
  {
    var zeros := seq(|bounds|, _ => 0);
    WeightIsProduct(words, bounds, zeros);
  }

  /** A request's mapped values are an outcome of its operation, given by the words its samples kept. */
  lemma MappedIsOutcome(word: nat -> nat, words: nat, randomness: nat, s: MappingSpec)
    requires words >= MAX_ITEMS && ValidMapping(words, s) && s.operation != RAW && Productive(word, words)
    ensures ValidBounds(words, Bounds(words, s))
    ensures IsOutcome(words, s, Mapped(word, words, randomness, s))
    ensures Yields(words, s, KeptWords(word, words, Bounds(words, s)), Mapped(word, words, randomness, s))
  {
    BoundsValid(words, s);
    var bounds := Bounds(words, s);
    KeptWordsAccepted(word, words, bounds);
    ValuesAreOutcomes(words, s, Samples(word, words, bounds), Mapped(word, words, randomness, s));
  }

  /** A shuffle's values are a permutation of the indices, and every permutation is one of its outcomes. */
  lemma ShuffleOutcomesArePermutations(words: nat, s: MappingSpec, values: seq<nat>)
    requires ValidMapping(words, s) && s.operation == SHUFFLE
    ensures IsOutcome(words, s, values) <==> multiset(values) == multiset(Identity(s.population))
  {
    var pool := Identity(s.population);
    IdentityDistinct(s.population);
    FullArrangementsArePermutations(pool, values);
    if |values| == |pool| {
      IndicesBelow(s.population, values);
    } else {
      assert |multiset(values)| == |values| && |multiset(pool)| == |pool|;
    }
  }

  // ---- the code

  /** The full-range case takes a word as it is, which is what the sampler does for a bound of all words. */
  lemma FullRangeIsTheGeneralRule(words: nat, w: nat)
    requires w < words
    ensures Threshold(words, words) == 0 && w % words == w
  {
    DivModOf(1, 0, words);
    DivModOf(0, w, words);
  }

  /** One pass of the swap loop: what it pushes and what is still to come make the same output. */
  lemma SelectStep(output: seq<nat>, pool: seq<nat>, i: nat, js: seq<nat>)
    requires i < |js| && ValidChoices(js[i..], i, |pool|)
    ensures i <= js[i] < |pool| && ValidChoices(js[i + 1..], i + 1, |pool|)
    ensures output + Select(pool, i, js[i..])
         == output + [pool[js[i]]] + Select(Swap(pool, i, js[i]), i + 1, js[i + 1..])
  {
    assert js[i..][0] == js[i] && js[i..][1..] == js[i + 1..];
  }

  method SwapEntries(pool: array<nat>, i: nat, j: nat)
    requires i < pool.Length && j < pool.Length
    modifies pool
    ensures pool[i] == old(pool[j]) && pool[j] == old(pool[i])
    ensures forall k :: 0 <= k < pool.Length && k != i && k != j ==> pool[k] == old(pool[k])
    ensures pool[..] == Swap(old(pool[..]), i, j)
  {
    pool[i], pool[j] := pool[j], pool[i];
  }

  /** The swap loop on the pool, in place, with the samples it takes from the stream; js are its choices. */
  method SelectInPlace(word: nat -> nat, words: nat, population: nat, count: nat, ghost bounds: seq<nat>,
      ghost js: seq<nat>)
    returns (output: seq<nat>)
    requires Productive(word, words) && ValidBounds(words, bounds)
    requires |bounds| == |js| == count && ValidChoices(js, 0, population)
    requires forall i :: 0 <= i < count ==> bounds[i] == population - i
    requires forall i :: 0 <= i < count ==> js[i] == i + Samples(word, words, bounds)[i]
    ensures output == Picked(population, js)
  {
    var pool := new nat[population](i => i);
    var cursor := 0;
    output := [];
    assert pool[..] == Identity(population);
    assert js[0..] == js;
    for i := 0 to count
      invariant cursor == CursorAt(word, words, bounds, i)
      invariant ValidChoices(js[i..], i, pool.Length)
      invariant output + Select(pool[..], i, js[i..]) == Select(Identity(population), 0, js)
    {
      SelectStep(output, pool[..], i, js);
      var v;
      v, cursor := SampleNext(word, words, population - i, cursor, bounds, i);
      var j := i + v;
      SwapEntries(pool, i, j);
      output := output + [pool[i]];
    }
    assert js[count..] == [];
  }

  /** `count` samples with one bound, each plus one. */
  method RollDice(word: nat -> nat, words: nat, sides: nat, count: nat, ghost bounds: seq<nat>)
    returns (output: seq<nat>)
    requires Productive(word, words) && ValidBounds(words, bounds)
    requires |bounds| == count && forall i :: 0 <= i < count ==> bounds[i] == sides
    ensures |output| == count
    ensures forall i :: 0 <= i < count ==> output[i] == Samples(word, words, bounds)[i] + 1
  {
    var cursor := 0;
    output := [];
    for i := 0 to count
      invariant cursor == CursorAt(word, words, bounds, i)
      invariant |output| == i
      invariant forall k :: 0 <= k < i ==> output[k] == Samples(word, words, bounds)[k] + 1
    {
      var v;
      v, cursor := SampleNext(word, words, sides, cursor, bounds, i);
      output := output + [v + 1];
    }
  }

  ghost predicate IsSingle(s: MappingSpec) {
    s.operation == COIN_FLIP || s.operation == NUMBER_RANGE || s.operation == CHOOSE_ONE
  }

  /** The bound of an operation that takes one sample. */
  function SingleBound(s: MappingSpec): int {
    if s.operation == COIN_FLIP then 2 else if s.operation == NUMBER_RANGE then s.upper - s.lower + 1 else s.population
  }

  lemma SingleBoundValid(words: nat, s: MappingSpec)
    requires words >= MAX_ITEMS && ValidMapping(words, s) && IsSingle(s)
    ensures 0 < SingleBound(s) <= words && Bounds(words, s) == [SingleBound(s)] && ValidBounds(words, Bounds(words, s))
  {
    BoundsValid(words, s);
  }

  /** What one sample is mapped to. */
  ghost function SingleValue(word: nat -> nat, words: nat, s: MappingSpec): nat
    requires words >= MAX_ITEMS && Productive(word, words) && ValidMapping(words, s) && IsSingle(s)
  {
    SingleBoundValid(words, s);
    (if s.operation == NUMBER_RANGE then s.lower else 0) + word(Draw(word, words, SingleBound(s), 0)) % SingleBound(s)
  }

  lemma SingleIsMapped(word: nat -> nat, words: nat, randomness: nat, s: MappingSpec)
    requires words >= MAX_ITEMS && Productive(word, words) && ValidMapping(words, s) && IsSingle(s)
    ensures Mapped(word, words, randomness, s) == [SingleValue(word, words, s)]
  {
    SingleBoundValid(words, s);
    NextSample(word, words, Bounds(words, s), 0);
    assert |Samples(word, words, Bounds(words, s))| == 1;
  }

  /** The operations that take one sample: a coin, a number in a range, one of a population. */
  method MapSingle(word: nat -> nat, words: nat, s: MappingSpec) returns (output: seq<nat>)
    requires words >= MAX_ITEMS && Productive(word, words) && ValidMapping(words, s) && IsSingle(s)
    ensures output == [SingleValue(word, words, s)]
  {
    SingleBoundValid(words, s);
    if s.operation == NUMBER_RANGE && s.lower == 0 && s.upper == words - 1 {
      FullRangeIsTheGeneralRule(words, word(0));
      assert AcceptedAt(word, words, words, 0);
      return [word(0)];
    }
    var v, _ := Sample(word, words, SingleBound(s), 0);
    return [if s.operation == NUMBER_RANGE then s.lower + v else v];
  }

  /** `mapRandomness`: the mapped values of a request, or the reason it throws. */
  method MapRandomness(word: nat -> nat, words: nat, randomness: Option<nat>, s: MappingSpec)
    returns (r: Result<seq<nat>, MappingError>)
    requires words >= MAX_ITEMS && Productive(word, words)
    ensures r.Ok? <==> ValidMapping(words, s) && randomness.Some?
    ensures r.Ok? ==> r.value == Mapped(word, words, randomness.value, s)
    ensures r.Err? ==> r.error == if ValidMapping(words, s) then ExpectedRandomness else InvalidParameters
  {
    if !ValidMapping(words, s) { return Err(InvalidParameters); }
    if randomness.None? { return Err(ExpectedRandomness); }
    BoundsValid(words, s);
    if s.operation == RAW {
      return Ok([randomness.value]);
    } else if s.operation == DICE_ROLL {
      var output := RollDice(word, words, s.upper, s.count, Bounds(words, s));
      return Ok(output);
    } else if s.operation == CHOOSE_MANY || s.operation == SHUFFLE {
      KeptWordsAccepted(word, words, Bounds(words, s));
      OffsetsValid(words, s, Samples(word, words, Bounds(words, s)));
      var output := SelectInPlace(word, words, s.population, s.count, Bounds(words, s),
                                  Offsets(Samples(word, words, Bounds(words, s))));
      return Ok(output);
    }
    SingleIsMapped(word, words, randomness.value, s);
    var output := MapSingle(word, words, s);
    return Ok(output);
  }
}
