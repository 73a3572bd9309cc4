/**
 What `mapRandomness` (src/mapping.ts) gives, operation by operation, from the words of the hash stream: which words are
 kept, what is made of their remainders, and how a selection exchanges the entries of its pool.
 */
module MappingWords {
  import opened FisherYates
  import opened Sampling
  import opened Mapping

  /** The first draw from one on whose word is not below the number of words modulo the bound. */
  ghost predicate FirstKept(word: nat -> nat, words: nat, bound: nat, from: nat, p: nat) {
    && bound > 0 && from <= p && word(p) >= words % bound
    && forall k :: from <= k < p ==> word(k) < words % bound
  }

  /** The draws of samples with these bounds, each from the one before on. */
  ghost predicate Drawn(word: nat -> nat, words: nat, bounds: seq<nat>, ps: seq<nat>) {
    && |ps| == |bounds|
    && forall i :: 0 <= i < |ps| ==> FirstKept(word, words, bounds[i], if i == 0 then 0 else ps[i - 1] + 1, ps[i])
  }

  lemma DrawIsFirstKept(word: nat -> nat, words: nat, bounds: seq<nat>, ps: seq<nat>, i: nat)
    requires ValidBounds(words, bounds) && ConsecutiveDraws(word, words, bounds, ps) && i < |ps|
    ensures FirstKept(word, words, bounds[i], if i == 0 then 0 else ps[i - 1] + 1, ps[i])
  {
    assert Cursor(ps[..i]) == if i == 0 then 0 else ps[i - 1] + 1;
    forall k | Cursor(ps[..i]) <= k < ps[i] ensures word(k) < words % bounds[i] {
      assert !AcceptedAt(word, words, bounds[i], k);
    }
  }

  lemma ConsecutiveIsDrawn(word: nat -> nat, words: nat, bounds: seq<nat>, ps: seq<nat>)
    requires ValidBounds(words, bounds) && ConsecutiveDraws(word, words, bounds, ps)
    ensures Drawn(word, words, bounds, ps)
  {
    forall i | 0 <= i < |ps| ensures FirstKept(word, words, bounds[i], if i == 0 then 0 else ps[i - 1] + 1, ps[i]) {
      DrawIsFirstKept(word, words, bounds, ps, i);
    }
  }

  lemma SamplesAreDrawn(word: nat -> nat, words: nat, bounds: seq<nat>) returns (ps: seq<nat>)
    requires ValidBounds(words, bounds) && Productive(word, words)
    ensures Drawn(word, words, bounds, ps)
    ensures Samples(word, words, bounds) == Remainders(word, bounds, ps)
  {
    ps := Positions(word, words, bounds);
    PositionsAreConsecutive(word, words, bounds);
    ConsecutiveIsDrawn(word, words, bounds, ps);
  }

  ghost function Remainders(word: nat -> nat, bounds: seq<nat>, ps: seq<nat>): (rs: seq<nat>)
    requires |ps| == |bounds| && forall i :: 0 <= i < |bounds| ==> bounds[i] > 0
    ensures |rs| == |ps|
    ensures forall i :: 0 <= i < |ps| ==> rs[i] == word(ps[i]) % bounds[i]
  {
    seq(|ps|, i requires 0 <= i < |ps| => word(ps[i]) % bounds[i])
  }

  /** Dice: each is the remainder of its word by the sides, plus one. */
  lemma DiceFromWords(word: nat -> nat, words: nat, randomness: nat, sides: nat, count: nat) returns (ps: seq<nat>)
    requires words >= 256 && Productive(word, words) && 2 <= sides < words && 1 <= count <= 128
    ensures ValidMapping(words, MappingSpec(1, 0, sides, count, 0))
    ensures Drawn(word, words, seq(count, _ => sides), ps)
    ensures var values := Mapped(word, words, randomness, MappingSpec(1, 0, sides, count, 0));
            |values| == count && forall i :: 0 <= i < count ==> values[i] == word(ps[i]) % sides + 1
  {
    var s := MappingSpec(1, 0, sides, count, 0);
    BoundsValid(words, s);
    ps := SamplesAreDrawn(word, words, Bounds(words, s));
  }

  lemma OneFromWords(word: nat -> nat, words: nat, randomness: nat, s: MappingSpec) returns (p: nat)
    requires words >= MAX_ITEMS && Productive(word, words) && ValidMapping(words, s) && IsSingle(s)
    ensures Bounds(words, s) == [SingleBound(s)] && Drawn(word, words, [SingleBound(s)], [p])
    ensures Mapped(word, words, randomness, s)
            == [(if s.operation == NUMBER_RANGE then s.lower else 0) + word(p) % SingleBound(s)]
  {
    SingleBoundValid(words, s);
    var ps := SamplesAreDrawn(word, words, Bounds(words, s));
    p := ps[0];
    assert ps == [p];
    KeptWordsAccepted(word, words, Bounds(words, s));
    assert Samples(word, words, Bounds(words, s))[0] == word(p) % SingleBound(s);
  }

  /** A coin: the first word, if it is not rejected, by its parity. */
  lemma CoinFromWords(word: nat -> nat, words: nat, randomness: nat) returns (p: nat)
    requires words >= 256 && Productive(word, words)
    ensures ValidMapping(words, MappingSpec(2, 0, 0, 1, 0)) && Drawn(word, words, [2], [p])
    ensures Mapped(word, words, randomness, MappingSpec(2, 0, 0, 1, 0)) == [word(p) % 2]
  {
    p := OneFromWords(word, words, randomness, MappingSpec(2, 0, 0, 1, 0));
  }

  /** A number in a range: its lower end plus the remainder by its size. */
  lemma RangeFromWords(word: nat -> nat, words: nat, randomness: nat, lower: nat, upper: nat) returns (p: nat)
    requires words >= 256 && Productive(word, words) && lower <= upper < words
    ensures ValidMapping(words, MappingSpec(3, lower, upper, 1, 0)) && Drawn(word, words, [upper - lower + 1], [p])
    ensures Mapped(word, words, randomness, MappingSpec(3, lower, upper, 1, 0))
            == [lower + word(p) % (upper - lower + 1)]
  {
    p := OneFromWords(word, words, randomness, MappingSpec(3, lower, upper, 1, 0));
  }

  /** One of a population: the remainder by its size. */
  lemma ChoiceFromWords(word: nat -> nat, words: nat, randomness: nat, population: nat) returns (p: nat)
    requires words >= 256 && Productive(word, words) && 1 <= population <= 256
    ensures ValidMapping(words, MappingSpec(4, 0, 0, 1, population)) && Drawn(word, words, [population], [p])
    ensures Mapped(word, words, randomness, MappingSpec(4, 0, 0, 1, population)) == [word(p) % population]
  {
    p := OneFromWords(word, words, randomness, MappingSpec(4, 0, 0, 1, population));
  }

  /**
   Some or all of a population: from the indices in order, the i-th remainder, by the population less i, says how far
   behind index i the entry stands that changes places with the one there and is output.
   */
  lemma SelectionFromWords(word: nat -> nat, words: nat, randomness: nat, count: nat, population: nat, all: bool)
      returns (ps: seq<nat>, js: seq<nat>, pools: seq<seq<nat>>)
    requires words >= 256 && Productive(word, words)
    requires 1 <= count <= population <= 256 && (all ==> count == population)
    ensures Drawn(word, words, seq(count, i requires 0 <= i < count => population - i), ps)
    ensures |js| == count && forall i :: 0 <= i < count ==> js[i] == i + word(ps[i]) % (population - i)
    ensures |pools| > 0 && pools[0] == seq(population, i => i)
    ensures var s := MappingSpec(if all then 6 else 5, 0, 0, count, population);
            ValidMapping(words, s) && Traces(pools, 0, js, Mapped(word, words, randomness, s))
  {
    var s := MappingSpec(if all then 6 else 5, 0, 0, count, population);
    BoundsValid(words, s);
    var bounds := Bounds(words, s);
    ps := SamplesAreDrawn(word, words, bounds);
    KeptWordsAccepted(word, words, bounds);
    js := Offsets(Samples(word, words, bounds));
    OffsetsValid(words, s, Samples(word, words, bounds));
    pools := SelectIsTraced(Identity(population), 0, js);
    assert Identity(population) == seq(population, i => i);
    OffsetsFromWords(word, words, bounds, ps, population);
  }

  lemma OffsetsFromWords(word: nat -> nat, words: nat, bounds: seq<nat>, ps: seq<nat>, population: nat)
    requires ValidBounds(words, bounds) && Productive(word, words) && |ps| == |bounds| <= population
    requires Samples(word, words, bounds) == Remainders(word, bounds, ps)
    requires forall i :: 0 <= i < |bounds| ==> bounds[i] == population - i
    ensures forall i :: 0 <= i < |bounds| ==>
                Offsets(Samples(word, words, bounds))[i] == i + word(ps[i]) % (population - i)
  {
  }

  /** The raw operation: the randomness itself. */
  lemma RawIsRandomness(word: nat -> nat, words: nat, randomness: nat)
    requires words >= 256 && Productive(word, words)
    ensures ValidMapping(words, MappingSpec(0, 0, 0, 0, 0))
    ensures Mapped(word, words, randomness, MappingSpec(0, 0, 0, 0, 0)) == [randomness]
  {
  }

  /** The mappings that are valid are exactly those the named ones are made with, with arguments in their ranges. */
  lemma ValidAreNamed(words: nat, s: MappingSpec)
    requires words >= 256
    ensures ValidMapping(words, s) <==>
            || s == MappingSpec(0, 0, 0, 0, 0) || s == MappingSpec(2, 0, 0, 1, 0)
            || (2 <= s.upper < words && 1 <= s.count <= 128 && s == MappingSpec(1, 0, s.upper, s.count, 0))
            || (0 <= s.lower <= s.upper < words && s == MappingSpec(3, s.lower, s.upper, 1, 0))
            || (1 <= s.population <= 256 && s == MappingSpec(4, 0, 0, 1, s.population))
            || (1 <= s.count <= s.population <= 256 && s == MappingSpec(5, 0, 0, s.count, s.population))
            || (1 <= s.population <= 256 && s == MappingSpec(6, 0, 0, s.population, s.population))
  {
  }
}
