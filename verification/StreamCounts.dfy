/**
 Uniformity over whole hash streams, rejected words included: of all streams of words of a given length, as many lead
 the sampler of `mapRandomness` (src/mapping.ts) to one outcome of an operation as to any other.
 */
module StreamCounts {
  import opened Common
  import opened Arithmetic
  import opened Sampling
  import opened Mapping

  // ---- streams of words

  /** All words below n. */
  ghost function WordsBelow(n: nat): (ws: set<nat>)
    ensures |ws| == n && forall w: nat :: w in ws <==> w < n
  {
    if n == 0 then {} else WordsBelow(n - 1) + {n - 1}
  }

  /** All streams of n words. */
  ghost function Streams(words: nat, n: nat): set<seq<nat>> {
    if n == 0 then {[]} else Prefixed(WordsBelow(words), Streams(words, n - 1))
  }

  ghost predicate AllBelow(words: nat, raw: seq<nat>) {
    forall i :: 0 <= i < |raw| ==> raw[i] < words
  }

  lemma AllBelowTail(words: nat, raw: seq<nat>)
    requires raw != []
    ensures AllBelow(words, raw) <==> raw[0] < words && AllBelow(words, raw[1..])
  {
    assert raw == [raw[0]] + raw[1..];
  }

  lemma PrefixedMember(heads: set<nat>, tails: set<seq<nat>>, v: seq<nat>)
    ensures v in Prefixed(heads, tails) <==> v != [] && v[0] in heads && v[1..] in tails
  {
    if v != [] { assert v == [v[0]] + v[1..]; }
    if v in Prefixed(heads, tails) {
      var w, u :| w in heads && u in tails && v == [w] + u;
      assert v[1..] == u;
    }
  }

  lemma {:induction false} StreamsMembers(words: nat, n: nat, raw: seq<nat>)
    ensures raw in Streams(words, n) <==> |raw| == n && AllBelow(words, raw)
    decreases n
  {
    if n > 0 {
      PrefixedMember(WordsBelow(words), Streams(words, n - 1), raw);
      if raw != [] {
        AllBelowTail(words, raw);
        StreamsMembers(words, n - 1, raw[1..]);
      }
    }
  }

  ghost function Power(words: nat, n: nat): nat {
    if n == 0 then 1 else Times(words, Power(words, n - 1))
  }

  /** The product, as a sum. */
  ghost function Times(a: nat, b: nat): (c: nat)
    ensures c > 0 <==> a > 0 && b > 0
  {
    if a == 0 then 0 else Times(a - 1, b) + b
  }

  lemma {:induction false} TimesIsProduct(a: nat, b: nat)
    ensures Times(a, b) == a * b
  {
    if a > 0 {
      TimesIsProduct(a - 1, b);
      MulSucc(a - 1, b);
    }
  }

  lemma {:induction false} StreamsSize(words: nat, n: nat)
    ensures |Streams(words, n)| == Power(words, n)
  {
    if n > 0 {
      StreamsSize(words, n - 1);
      PrefixedSize(WordsBelow(words), Streams(words, n - 1));
      TimesIsProduct(words, Power(words, n - 1));
    }
  }

  // ---- the sampler on finitely many words

  /** The samples for these bounds, if the words suffice for them; words left over are not used. */
  ghost function Served(words: nat, bounds: seq<nat>, raw: seq<nat>): (vs: Option<seq<nat>>)
    requires ValidBounds(words, bounds)
    ensures vs.Some? ==> |vs.value| == |bounds|
    decreases |raw|
  {
    if bounds == [] then Some([])
    else if raw == [] then None
    else if raw[0] < Threshold(words, bounds[0]) then Served(words, bounds, raw[1..])
    else
      match Served(words, bounds[1..], raw[1..])
      case None => None
      case Some(vs) => Some([raw[0] % bounds[0]] + vs)
  }

  /** The streams of n words whose samples for these bounds are rs. */
  ghost function Runs(words: nat, bounds: seq<nat>, rs: seq<nat>, n: nat): set<seq<nat>>
    requires ValidBounds(words, bounds)
  {
    set raw | raw in Streams(words, n) && Served(words, bounds, raw) == Some(rs)
  }

  /** How many words give each value of a sample. */
  ghost function ClassSize(words: nat, bound: nat): (size: nat)
    requires 0 < bound <= words
    ensures size == words / bound > 0
  {
    QuotientPositive(words, bound);
    words / bound
  }

  /**
   How many streams of n words give each vector of samples: the first word is one of the rejected ones and n - 1 words
   remain for all samples, or it is one of those that give the first sample.
   */
  ghost function Count(words: nat, bounds: seq<nat>, n: nat): nat
    requires ValidBounds(words, bounds)
    decreases n
  {
    if bounds == [] then Power(words, n)
    else if n == 0 then 0
    else
      Times(Threshold(words, bounds[0]), Count(words, bounds, n - 1))
      + Times(ClassSize(words, bounds[0]), Count(words, bounds[1..], n - 1))
  }

  lemma ServedFirst(words: nat, bounds: seq<nat>, rs: seq<nat>, raw: seq<nat>)
    requires ValidBounds(words, bounds) && |rs| == |bounds| > 0 && raw != []
    ensures Served(words, bounds, raw) == Some(rs) <==>
            if raw[0] < Threshold(words, bounds[0]) then Served(words, bounds, raw[1..]) == Some(rs)
            else raw[0] % bounds[0] == rs[0] && Served(words, bounds[1..], raw[1..]) == Some(rs[1..])
  {
    assert rs == [rs[0]] + rs[1..];
    if Served(words, bounds[1..], raw[1..]).Some? {
      var vs := Served(words, bounds[1..], raw[1..]).value;
      assert ([raw[0] % bounds[0]] + vs)[1..] == vs;
    }
  }

  /** Membership, without the set. */
  ghost predicate IsRun(words: nat, bounds: seq<nat>, rs: seq<nat>, n: nat, raw: seq<nat>)
    requires ValidBounds(words, bounds)
  {
    |raw| == n && AllBelow(words, raw) && Served(words, bounds, raw) == Some(rs)
  }

  lemma RunsMembers(words: nat, bounds: seq<nat>, rs: seq<nat>, n: nat, raw: seq<nat>)
    requires ValidBounds(words, bounds)
    ensures raw in Runs(words, bounds, rs, n) <==> IsRun(words, bounds, rs, n, raw)
  {
    StreamsMembers(words, n, raw);
  }

  lemma FirstWord(words: nat, bound: nat, r: nat, w: nat)
    requires 0 < bound <= words
    ensures w in WordsBelow(Threshold(words, bound)) <==> w < words && w < Threshold(words, bound)
    ensures w in ResidueClass(words, bound, r) <==> w < words && w >= Threshold(words, bound) && w % bound == r
  {
    DivMod(words, bound);
  }

  lemma IsRunFirst(words: nat, bounds: seq<nat>, rs: seq<nat>, n: nat, raw: seq<nat>)
    requires ValidBounds(words, bounds) && |rs| == |bounds| > 0 && n > 0
    ensures IsRun(words, bounds, rs, n, raw) <==>
            && raw != []
            && (|| (raw[0] in WordsBelow(Threshold(words, bounds[0])) && IsRun(words, bounds, rs, n - 1, raw[1..]))
                || (&& raw[0] in ResidueClass(words, bounds[0], rs[0])
                    && IsRun(words, bounds[1..], rs[1..], n - 1, raw[1..])))
  {
    if raw != [] {
      AllBelowTail(words, raw);
      FirstWord(words, bounds[0], rs[0], raw[0]);
      ServedFirst(words, bounds, rs, raw);
    }
  }

  lemma RunsUnfold(words: nat, bounds: seq<nat>, rs: seq<nat>, n: nat)
    requires ValidBounds(words, bounds) && |rs| == |bounds| > 0 && n > 0
    ensures Runs(words, bounds, rs, n)
            == Prefixed(WordsBelow(Threshold(words, bounds[0])), Runs(words, bounds, rs, n - 1))
               + Prefixed(ResidueClass(words, bounds[0], rs[0]), Runs(words, bounds[1..], rs[1..], n - 1))
  {
    var rejected, kept := WordsBelow(Threshold(words, bounds[0])), ResidueClass(words, bounds[0], rs[0]);
    var again, on := Runs(words, bounds, rs, n - 1), Runs(words, bounds[1..], rs[1..], n - 1);
    forall raw
      ensures raw in Runs(words, bounds, rs, n) <==> raw in Prefixed(rejected, again) || raw in Prefixed(kept, on)
    {
      RunsMembers(words, bounds, rs, n, raw);
      IsRunFirst(words, bounds, rs, n, raw);
      PrefixedMember(rejected, again, raw);
      PrefixedMember(kept, on, raw);
      if raw != [] {
        RunsMembers(words, bounds, rs, n - 1, raw[1..]);
        RunsMembers(words, bounds[1..], rs[1..], n - 1, raw[1..]);
      }
    }
  }

  lemma PrefixedDisjoint(a: set<nat>, b: set<nat>, s: set<seq<nat>>, t: set<seq<nat>>)
    requires a !! b
    ensures Prefixed(a, s) !! Prefixed(b, t)
  {
    forall v | v in Prefixed(a, s) ensures v !in Prefixed(b, t) {
      PrefixedMember(a, s, v);
      PrefixedMember(b, t, v);
    }
  }

  lemma UnionSize(a: set<nat>, s: set<seq<nat>>, b: set<nat>, t: set<seq<nat>>)
    requires a !! b
    ensures |Prefixed(a, s) + Prefixed(b, t)| == Times(|a|, |s|) + Times(|b|, |t|)
  {
    PrefixedDisjoint(a, b, s, t);
    PrefixedSize(a, s);
    PrefixedSize(b, t);
    TimesIsProduct(|a|, |s|);
    TimesIsProduct(|b|, |t|);
    DisjointUnionSize(Prefixed(a, s), Prefixed(b, t), Prefixed(a, s) + Prefixed(b, t));
  }

  lemma RunsStep(words: nat, bounds: seq<nat>, rs: seq<nat>, n: nat)
    requires ValidBounds(words, bounds) && |rs| == |bounds| > 0 && rs[0] < bounds[0] && n > 0
    ensures |Runs(words, bounds, rs, n)|
            == Times(Threshold(words, bounds[0]), |Runs(words, bounds, rs, n - 1)|)
               + Times(ClassSize(words, bounds[0]), |Runs(words, bounds[1..], rs[1..], n - 1)|)
  {
    RunsUnfold(words, bounds, rs, n);
    ResidueClassSize(words, bounds[0], rs[0]);
    UnionSize(WordsBelow(Threshold(words, bounds[0])), Runs(words, bounds, rs, n - 1),
              ResidueClass(words, bounds[0], rs[0]), Runs(words, bounds[1..], rs[1..], n - 1));
  }

  /** Without bounds every stream serves; without words none does. */
  lemma RunsAtEnd(words: nat, bounds: seq<nat>, rs: seq<nat>, n: nat)
    requires ValidBounds(words, bounds) && |rs| == |bounds| && (bounds == [] || n == 0)
    ensures |Runs(words, bounds, rs, n)| == Count(words, bounds, n)
  {
    if bounds == [] {
      assert Runs(words, bounds, rs, n) == Streams(words, n);
      StreamsSize(words, n);
    } else {
      assert Runs(words, bounds, rs, n) == {};
    }
  }

  /** Equally many streams of n words give each vector of samples below the bounds. */
  lemma {:induction false} RunsSize(words: nat, bounds: seq<nat>, rs: seq<nat>, n: nat)
    requires ValidBounds(words, bounds) && Below(rs, bounds)
    ensures |Runs(words, bounds, rs, n)| == Count(words, bounds, n)
    decreases n
  {
    if bounds == [] || n == 0 {
      RunsAtEnd(words, bounds, rs, n);
    } else {
      RunsSize(words, bounds, rs, n - 1);
      RunsSize(words, bounds[1..], rs[1..], n - 1);
      RunsStep(words, bounds, rs, n);
    }
  }

  /** Some stream of n words serves the bounds exactly when n is at least their number. */
  lemma {:induction false} CountPositive(words: nat, bounds: seq<nat>, n: nat)
    requires ValidBounds(words, bounds) && words > 0
    ensures Count(words, bounds, n) > 0 <==> n >= |bounds|
    decreases n
  {
    if bounds == [] {
      PowerPositive(words, n);
    } else if n > 0 {
      CountPositive(words, bounds, n - 1);
      CountPositive(words, bounds[1..], n - 1);
    }
  }

  lemma {:induction false} PowerPositive(words: nat, n: nat)
    requires words > 0
    ensures Power(words, n) > 0
  {
    if n > 0 { PowerPositive(words, n - 1); }
  }

  // ---- the beginning of a stream

  /** The words of the stream from draw c up to draw n. */
  ghost function Slice(word: nat -> nat, c: nat, n: nat): (raw: seq<nat>)
    requires c <= n
    ensures |raw| == n - c
  {
    seq(n - c, i requires 0 <= i < n - c => word(c + i))
  }

  lemma SliceTail(word: nat -> nat, c: nat, n: nat)
    requires c < n
    ensures Slice(word, c, n)[0] == word(c) && Slice(word, c, n)[1..] == Slice(word, c + 1, n)
  {
  }

  lemma {:induction false} SkipRejected(word: nat -> nat, words: nat, bounds: seq<nat>, c: nat, k: nat, n: nat)
    requires ValidBounds(words, bounds) && bounds != [] && c <= k <= n
    requires forall i :: c <= i < k ==> !AcceptedAt(word, words, bounds[0], i)
    ensures Served(words, bounds, Slice(word, c, n)) == Served(words, bounds, Slice(word, k, n))
    decreases k - c
  {
    if c < k {
      SliceTail(word, c, n);
      assert !AcceptedAt(word, words, bounds[0], c);
      SkipRejected(word, words, bounds, c + 1, k, n);
    }
  }

  lemma {:induction false} CursorAscends(word: nat -> nat, words: nat, bounds: seq<nat>, m: nat, n: nat)
    requires ValidBounds(words, bounds) && Productive(word, words) && m <= n <= |bounds|
    ensures CursorAt(word, words, bounds, m) <= CursorAt(word, words, bounds, n)
    decreases n
  {
    if m < n {
      CursorAscends(word, words, bounds, m, n - 1);
      NextSample(word, words, bounds, n - 1);
    }
  }

  /** Whether the samples for all bounds are taken from the first n words. */
  ghost predicate Within(word: nat -> nat, words: nat, bounds: seq<nat>, n: nat)
    requires ValidBounds(words, bounds) && Productive(word, words)
  {
    CursorAt(word, words, bounds, |bounds|) <= n
  }

  /** From the m-th sample on, the first n words serve what the stream serves, if they suffice. */
  lemma {:induction false} ServedFrom(word: nat -> nat, words: nat, bounds: seq<nat>, m: nat, n: nat)
    requires ValidBounds(words, bounds) && Productive(word, words)
    requires m <= |bounds| && CursorAt(word, words, bounds, m) <= n
    ensures Served(words, bounds[m..], Slice(word, CursorAt(word, words, bounds, m), n)) ==
            if Within(word, words, bounds, n) then Some(Samples(word, words, bounds)[m..]) else None
    decreases |bounds| - m
  {
    if m < |bounds| {
      var c := CursorAt(word, words, bounds, m);
      var k := Draw(word, words, bounds[m], c);
      NextSample(word, words, bounds, m);
      if k < n {
        SkipRejected(word, words, bounds[m..], c, k, n);
        SliceTail(word, k, n);
        assert bounds[m..][1..] == bounds[m + 1..];
        var vs := Samples(word, words, bounds);
        assert vs[m..] == [vs[m]] + vs[m + 1..];
        ServedFrom(word, words, bounds, m + 1, n);
      } else {
        SkipRejected(word, words, bounds[m..], c, n, n);
        CursorAscends(word, words, bounds, m + 1, |bounds|);
      }
    }
  }

  /** The sampler on the first n words of a stream gives the stream's samples exactly when they suffice. */
  lemma ServedIsSamples(word: nat -> nat, words: nat, bounds: seq<nat>, n: nat)
    requires ValidBounds(words, bounds) && Productive(word, words)
    ensures Served(words, bounds, Slice(word, 0, n)) ==
            if Within(word, words, bounds, n) then Some(Samples(word, words, bounds)) else None
  {
    ServedFrom(word, words, bounds, 0, n);
    assert bounds[0..] == bounds && Samples(word, words, bounds)[0..] == Samples(word, words, bounds);
  }

  /** The stream that goes on with the greatest word. */
  ghost function Continued(words: nat, raw: seq<nat>): nat -> nat
    requires words > 0
  {
    (i: nat) => if i < |raw| then raw[i] else words - 1
  }

  /** Every sequence of words is the beginning of a stream the sampler can work with. */
  lemma BeginsStream(words: nat, raw: seq<nat>)
    requires words >= 2 && AllBelow(words, raw)
    ensures Productive(Continued(words, raw), words) && Slice(Continued(words, raw), 0, |raw|) == raw
  {
    UpperHalfSuffices(Continued(words, raw), words, (c: nat) => if c < |raw| then |raw| else c);
  }

  // ---- the operations

  /** The streams of n words from which an operation gives these values. */
  ghost function Giving(words: nat, s: MappingSpec, values: seq<nat>, n: nat): set<seq<nat>>
    requires words >= MAX_ITEMS && ValidMapping(words, s) && s.operation != RAW
  {
    BoundsValid(words, s);
    if IsOutcome(words, s, values) then Runs(words, Bounds(words, s), SamplesFor(words, s, values), n) else {}
  }

  /**
   Exact uniformity over streams: of the streams of n words, for every n, each outcome of an operation is given by the
   same number, which is positive as soon as n words can suffice, and nothing else is given by any.
   */
  lemma StreamsUniform(words: nat, s: MappingSpec, values: seq<nat>, n: nat)
    requires words >= MAX_ITEMS && ValidMapping(words, s) && s.operation != RAW
    ensures ValidBounds(words, Bounds(words, s))
    ensures |Giving(words, s, values, n)|
            == if IsOutcome(words, s, values) then Count(words, Bounds(words, s), n) else 0
    ensures Count(words, Bounds(words, s), n) > 0 <==> n >= |Bounds(words, s)|
  {
    BoundsValid(words, s);
    CountPositive(words, Bounds(words, s), n);
    if IsOutcome(words, s, values) {
      RunsSize(words, Bounds(words, s), SamplesFor(words, s, values), n);
    }
  }

  /** What is counted is what the code does: the beginning of a stream is among those that give its mapped values. */
  lemma GivingIsMapped(word: nat -> nat, words: nat, randomness: nat, s: MappingSpec, values: seq<nat>, n: nat)
    requires words >= MAX_ITEMS && ValidMapping(words, s) && s.operation != RAW && Productive(word, words)
    ensures ValidBounds(words, Bounds(words, s))
    ensures Slice(word, 0, n) in Giving(words, s, values, n) <==>
            Within(word, words, Bounds(words, s), n) && Mapped(word, words, randomness, s) == values
  {
    BoundsValid(words, s);
    var bounds := Bounds(words, s);
    var vs := Samples(word, words, bounds);
    KeptWordsAccepted(word, words, bounds);
    ValuesAreOutcomes(words, s, vs, values);
    ServedIsSamples(word, words, bounds, n);
    if IsOutcome(words, s, values) {
      RunsMembers(words, bounds, SamplesFor(words, s, values), n, Slice(word, 0, n));
    }
  }

  /** And nothing else is counted: every stream counted is the beginning of one the code maps to the values. */
  lemma GivingBeginsStream(words: nat, randomness: nat, s: MappingSpec, values: seq<nat>, n: nat, raw: seq<nat>)
    requires words >= MAX_ITEMS && ValidMapping(words, s) && s.operation != RAW
    ensures raw in Giving(words, s, values, n) <==>
            && |raw| == n && AllBelow(words, raw) && Productive(Continued(words, raw), words)
            && Within(Continued(words, raw), words, Bounds(words, s), n)
            && Mapped(Continued(words, raw), words, randomness, s) == values
  {
    BoundsValid(words, s);
    if raw in Giving(words, s, values, n) {
      RunsMembers(words, Bounds(words, s), SamplesFor(words, s, values), n, raw);
    }
    if |raw| == n && AllBelow(words, raw) {
      BeginsStream(words, raw);
      GivingIsMapped(Continued(words, raw), words, randomness, s, values, n);
    }
  }
}
