/**
 The rejection sampler of `mapRandomness` (src/mapping.ts). The hash stream is a function `word` from draw numbers to
 words; `words` is how many words there are (2^256 in the source) and is never unfolded.
 */
module Sampling {
  import opened Arithmetic

  /** The words the sampler rejects are those below this. */
  function Threshold(words: nat, bound: nat): nat
    requires bound > 0
  {
    words % bound
  }

  // ---- counting

  /** The accepted words that reduce to residue r. */
  ghost function ResidueClass(words: nat, bound: nat, r: nat): set<nat>
    requires bound > 0
  {
    set w: nat | w < words && Threshold(words, bound) <= w && w % bound == r
  }

  ghost function Progression(bound: nat, r: nat, first: nat, count: nat): set<nat> {
    set q: nat | first <= q < first + count :: q * bound + r
  }

  lemma {:induction false} ProgressionSize(bound: nat, r: nat, first: nat, count: nat)
    requires bound > 0
    ensures |Progression(bound, r, first, count)| == count
  {
    if count > 0 {
      ProgressionSize(bound, r, first, count - 1);
      var last := first + count - 1;
      var init := Progression(bound, r, first, count - 1);
      assert Progression(bound, r, first, count) == init + {last * bound + r};
      forall q | first <= q < last ensures q * bound + r < last * bound + r {
        MulLe(q + 1, last, bound);
        MulSucc(q, bound);
      }
      assert last * bound + r !in init;
    }
  }

  /** Which multiples of the bound reach the accepted words of residue r, and which pass their end. */
  lemma AcceptedQuotients(k: nat, t: nat, bound: nat, q: nat, r: nat)
    requires t < bound && r < bound
    ensures t <= q * bound + r < k * bound + t <==> q >= (if r < t then 1 else 0) && q < k + (if r < t then 1 else 0)
  {
    MulLe(0, q, bound);
    if 1 <= q { MulLe(1, q, bound); }
    if q < k {
      MulLe(q + 1, k, bound);
      MulSucc(q, bound);
    } else if k < q {
      MulLe(k + 1, q, bound);
      MulSucc(k, bound);
    }
  }

  lemma ResidueClassIsProgression(words: nat, bound: nat, r: nat)
    requires 0 < bound <= words && r < bound
    ensures ResidueClass(words, bound, r)
         == Progression(bound, r, if r < Threshold(words, bound) then 1 else 0, words / bound)
  {
    var t := Threshold(words, bound);
    var k := words / bound;
    var e := if r < t then 1 else 0;
    DivMod(words, bound);
    forall w: nat | w in ResidueClass(words, bound, r) ensures w in Progression(bound, r, e, k) {
      DivMod(w, bound);
      AcceptedQuotients(k, t, bound, w / bound, r);
    }
    forall q: nat | e <= q < e + k ensures q * bound + r in ResidueClass(words, bound, r) {
      DivModOf(q, r, bound);
      AcceptedQuotients(k, t, bound, q, r);
    }
  }

  lemma QuotientPositive(words: nat, bound: nat)
    requires 0 < bound <= words
    ensures words / bound > 0
  {
    DivMod(words, bound);
    if words / bound <= 0 { MulLe(words / bound, 0, bound); }
  }

  /** Every residue below the bound has the same number of accepted words, so an accepted word is exactly uniform. */
  lemma ResidueClassSize(words: nat, bound: nat, r: nat)
    requires 0 < bound <= words && r < bound
    ensures |ResidueClass(words, bound, r)| == (words - Threshold(words, bound)) / bound == words / bound > 0
  {
    ResidueClassIsProgression(words, bound, r);
    QuotientPositive(words, bound);
    ProgressionSize(bound, r, if r < Threshold(words, bound) then 1 else 0, words / bound);
    DivMod(words, bound);
    DivModOf(words / bound, 0, bound);
  }

  /** Fewer than half of all words are rejected, whatever the bound. */
  lemma FewerThanHalfRejected(words: nat, bound: nat)
    requires 0 < bound <= words
    ensures 2 * Threshold(words, bound) < words
  {
    DivMod(words, bound);
    QuotientPositive(words, bound);
    MulLe(1, words / bound, bound);
  }

  /** The coordinator's threshold, computed in wrapping arithmetic as (0 - bound) mod bound, is the same one. */
  lemma WrappedThresholdAgrees(words: nat, bound: nat)
    requires 0 < bound <= words
    ensures ((0 - bound) % words) % bound == Threshold(words, bound)
  {
    DivMod(words, bound);
    if bound < words {
      DivModOf(-1, words - bound, words);
      MulSucc(words / bound - 1, bound);
      DivModOf(words / bound - 1, words % bound, bound);
    } else {
      DivModOf(-1, 0, words);
      DivModOf(1, 0, bound);
      DivModOf(0, 0, bound);
    }
  }

  // ---- vectors of independent words

  /** Every vector whose i-th entry comes from the i-th class. */
  ghost function Vectors(classes: seq<set<nat>>): set<seq<nat>> {
    if classes == [] then {[]}
    else Prefixed(classes[0], Vectors(classes[1..]))
  }

  ghost function Led(w: nat, tails: set<seq<nat>>): set<seq<nat>> {
    set v | v in tails :: [w] + v
  }

  ghost function Prefixed(heads: set<nat>, tails: set<seq<nat>>): set<seq<nat>> {
    set w, v | w in heads && v in tails :: [w] + v
  }

  ghost function SizeProduct(classes: seq<set<nat>>): nat {
    if classes == [] then 1 else |classes[0]| * SizeProduct(classes[1..])
  }

  lemma {:induction false} PrefixedByOne(w: nat, tails: set<seq<nat>>)
    ensures |Led(w, tails)| == |tails|
    decreases |tails|
  {
    if tails != {} {
      var t :| t in tails;
      var rest := tails - {t};
      PrefixedByOne(w, rest);
      assert Led(w, tails) == Led(w, rest) + {[w] + t};
      forall v | v in rest ensures [w] + v != [w] + t {
        assert ([w] + v)[1..] == v && ([w] + t)[1..] == t;
      }
    }
  }

  lemma PrefixedSplit(heads: set<nat>, w: nat, tails: set<seq<nat>>)
    requires w in heads
    ensures Prefixed(heads, tails) == Prefixed(heads - {w}, tails) + Led(w, tails)
    ensures Prefixed(heads - {w}, tails) !! Led(w, tails)
  {
    var one := Led(w, tails);
    var others := Prefixed(heads - {w}, tails);
    forall v | v in others ensures v !in one && v in Prefixed(heads, tails) {
      assert v[0] in heads - {w};
    }
    forall v | v in Prefixed(heads, tails) ensures v in others || v in one {
      var h, u :| h in heads && u in tails && v == [h] + u;
    }
  }

  lemma DisjointUnionSize<T>(a: set<T>, b: set<T>, u: set<T>)
    requires a !! b && u == a + b
    ensures |u| == |a| + |b|
  {
  }

  lemma PrefixedStep(heads: set<nat>, w: nat, tails: set<seq<nat>>)
    requires w in heads
    ensures |Prefixed(heads, tails)| == |Prefixed(heads - {w}, tails)| + |tails|
  {
    PrefixedByOne(w, tails);
    PrefixedSplit(heads, w, tails);
    DisjointUnionSize(Prefixed(heads - {w}, tails), Led(w, tails), Prefixed(heads, tails));
  }

  lemma {:induction false} PrefixedSize(heads: set<nat>, tails: set<seq<nat>>)
    ensures |Prefixed(heads, tails)| == |heads| * |tails|
    decreases |heads|
  {
    if heads == {} {
      assert Prefixed(heads, tails) == {};
    } else {
      var w :| w in heads;
      PrefixedSize(heads - {w}, tails);
      PrefixedStep(heads, w, tails);
      MulSucc(|heads - {w}|, |tails|);
    }
  }

  lemma {:induction false} VectorsSize(classes: seq<set<nat>>)
    ensures |Vectors(classes)| == SizeProduct(classes)
  {
    if classes != [] {
      VectorsSize(classes[1..]);
      PrefixedSize(classes[0], Vectors(classes[1..]));
    }
  }

  lemma {:induction false} VectorsMembers(classes: seq<set<nat>>, v: seq<nat>)
    ensures v in Vectors(classes) <==> |v| == |classes| && forall i :: 0 <= i < |v| ==> v[i] in classes[i]
  {
    if classes != [] {
      if |v| > 0 {
        VectorsMembers(classes[1..], v[1..]);
        assert v == [v[0]] + v[1..];
        if v in Vectors(classes) {
          var w, u :| w in classes[0] && u in Vectors(classes[1..]) && v == [w] + u;
          assert v[1..] == u;
          forall i | 0 <= i < |v| ensures v[i] in classes[i] {
            if i > 0 { assert v[i] == v[1..][i - 1] && classes[i] == classes[1..][i - 1]; }
          }
        }
        if |v| == |classes| && forall i :: 0 <= i < |v| ==> v[i] in classes[i] {
          forall i | 0 <= i < |v[1..]| ensures v[1..][i] in classes[1..][i] {
            assert v[1..][i] == v[i + 1] && classes[1..][i] == classes[i + 1];
          }
        }
      }
    }
  }

  /** The bounds a sampler can be asked for. */
  ghost predicate ValidBounds(words: nat, bounds: seq<nat>) {
    forall i :: 0 <= i < |bounds| ==> 0 < bounds[i] <= words
  }

  /** Vectors of words the sampler accepts for these bounds, one word a bound. */
  ghost predicate AcceptedVector(words: nat, bounds: seq<nat>, ws: seq<nat>)
    requires ValidBounds(words, bounds)
  {
    && |ws| == |bounds|
    && forall i :: 0 <= i < |ws| ==> Threshold(words, bounds[i]) <= ws[i] < words
  }

  ghost function Residues(bounds: seq<nat>, ws: seq<nat>): (rs: seq<nat>)
    requires |ws| == |bounds| && forall i :: 0 <= i < |bounds| ==> 0 < bounds[i]
    ensures |rs| == |ws|
  {
    seq(|ws|, i requires 0 <= i < |ws| => ws[i] % bounds[i])
  }

  ghost function Classes(words: nat, bounds: seq<nat>, rs: seq<nat>): seq<set<nat>>
    requires |rs| == |bounds| && ValidBounds(words, bounds)
  {
    seq(|rs|, i requires 0 <= i < |rs| => ResidueClass(words, bounds[i], rs[i]))
  }

  /** How many accepted vectors give each vector of residues. */
  ghost function Weight(words: nat, bounds: seq<nat>): nat
    requires ValidBounds(words, bounds)
  {
    if bounds == [] then 1 else (words / bounds[0]) * Weight(words, bounds[1..])
  }

  lemma {:induction false} WeightIsProduct(words: nat, bounds: seq<nat>, rs: seq<nat>)
    requires ValidBounds(words, bounds) && |rs| == |bounds|
    requires forall i :: 0 <= i < |rs| ==> rs[i] < bounds[i]
    ensures SizeProduct(Classes(words, bounds, rs)) == Weight(words, bounds) > 0
  {
    if bounds != [] {
      ResidueClassSize(words, bounds[0], rs[0]);
      WeightIsProduct(words, bounds[1..], rs[1..]);
      assert Classes(words, bounds, rs)[1..] == Classes(words, bounds[1..], rs[1..]);
    }
  }

  /**
   Joint uniformity: each vector of residues below the bounds comes from the same number of accepted word vectors, and
   `Vectors` of its classes lists exactly those.
   */
  lemma ResiduesUniform(words: nat, bounds: seq<nat>, rs: seq<nat>)
    requires ValidBounds(words, bounds) && |rs| == |bounds|
    requires forall i :: 0 <= i < |rs| ==> rs[i] < bounds[i]
    ensures |Vectors(Classes(words, bounds, rs))| == Weight(words, bounds) > 0
    ensures forall ws :: ws in Vectors(Classes(words, bounds, rs)) <==>
                         AcceptedVector(words, bounds, ws) && Residues(bounds, ws) == rs
  {
    var classes := Classes(words, bounds, rs);
    VectorsSize(classes);
    WeightIsProduct(words, bounds, rs);
    forall ws ensures ws in Vectors(classes) <==> AcceptedVector(words, bounds, ws) && Residues(bounds, ws) == rs {
      VectorsMembers(classes, ws);
      if AcceptedVector(words, bounds, ws) && Residues(bounds, ws) == rs {
        forall i | 0 <= i < |ws| ensures ws[i] in classes[i] {
          assert rs[i] == Residues(bounds, ws)[i];
        }
      }
    }
  }

  // ---- the stream

  /** Whether draw k gives a word the sampler keeps for this bound. */
  ghost predicate AcceptedAt(word: nat -> nat, words: nat, bound: nat, k: nat)
    requires bound > 0
  {
    Threshold(words, bound) <= word(k)
  }

  /** Some draw from c on is kept, so the sampler's loop ends. */
  ghost predicate Reachable(word: nat -> nat, words: nat, bound: nat, c: nat)
    requires bound > 0
  {
    exists k :: c <= k && AcceptedAt(word, words, bound, k)
  }

  /** The stream yields words, and never runs out of acceptable ones for any bound. */
  ghost predicate Productive(word: nat -> nat, words: nat) {
    && (forall i :: word(i) < words)
    && forall bound, c :: 0 < bound <= words ==> Reachable(word, words, bound, c)
  }

  /** A stream that keeps giving words of the upper half is productive: no bound rejects them. */
  lemma UpperHalfSuffices(word: nat -> nat, words: nat, later: nat -> nat)
    requires forall i :: word(i) < words
    requires forall c: nat :: c <= later(c) && words <= 2 * word(later(c))
    ensures Productive(word, words)
  {
    forall bound, c | 0 < bound <= words ensures Reachable(word, words, bound, c) {
      FewerThanHalfRejected(words, bound);
      assert AcceptedAt(word, words, bound, later(c));
    }
  }

  ghost function FirstUpTo(word: nat -> nat, words: nat, bound: nat, c: nat, limit: nat): (k: nat)
    requires bound > 0 && c <= limit && AcceptedAt(word, words, bound, limit)
    ensures c <= k && AcceptedAt(word, words, bound, k)
    ensures forall i :: c <= i < k ==> !AcceptedAt(word, words, bound, i)
    decreases limit - c
  {
    if AcceptedAt(word, words, bound, c) then c else FirstUpTo(word, words, bound, c + 1, limit)
  }

  /** The draw a sample that starts at cursor c keeps: the first acceptable one. */
  ghost function Draw(word: nat -> nat, words: nat, bound: nat, c: nat): (k: nat)
    requires bound > 0 && Reachable(word, words, bound, c)
    ensures c <= k && AcceptedAt(word, words, bound, k)
    ensures forall i :: c <= i < k ==> !AcceptedAt(word, words, bound, i)
  {
    var limit :| c <= limit && AcceptedAt(word, words, bound, limit);
    FirstUpTo(word, words, bound, c, limit)
  }

  /** One sample from the cursor: it reads the stream from c up to and including the first acceptable word. */
  method Sample(word: nat -> nat, words: nat, bound: nat, c: nat) returns (value: nat, next: nat)
    requires bound > 0 && Reachable(word, words, bound, c)
    ensures value < bound
    ensures c < next && AcceptedAt(word, words, bound, next - 1) && value == word(next - 1) % bound
    ensures forall i :: c <= i < next - 1 ==> !AcceptedAt(word, words, bound, i)
    ensures next == Draw(word, words, bound, c) + 1
  {
    var threshold := Threshold(words, bound);
    ghost var first := Draw(word, words, bound, c);
    var w := word(c);
    next := c + 1;
    while w < threshold
      invariant c < next <= first + 1
      invariant w == word(next - 1)
      invariant forall i :: c <= i < next - 1 ==> !AcceptedAt(word, words, bound, i)
      decreases first + 1 - next
    {
      w := word(next);
      next := next + 1;
    }
    assert AcceptedAt(word, words, bound, next - 1);
    value := w % bound;
  }

  /** The draws that successive samples with these bounds keep, the first sample starting at draw 0. */
  ghost function Positions(word: nat -> nat, words: nat, bounds: seq<nat>): (ps: seq<nat>)
    requires ValidBounds(words, bounds) && Productive(word, words)
    ensures |ps| == |bounds|
  {
    if bounds == [] then []
    else
      var last := |bounds| - 1;
      var init := Positions(word, words, bounds[..last]);
      init + [Draw(word, words, bounds[last], Cursor(init))]
  }

  /** Where the cursor stands once these draws have been kept. */
  function Cursor(ps: seq<nat>): nat {
    if ps == [] then 0 else ps[|ps| - 1] + 1
  }

  /** The words those draws give. */
  ghost function KeptWords(word: nat -> nat, words: nat, bounds: seq<nat>): (ws: seq<nat>)
    requires ValidBounds(words, bounds) && Productive(word, words)
    ensures |ws| == |bounds|
  {
    var ps := Positions(word, words, bounds);
    seq(|ps|, i requires 0 <= i < |ps| => word(ps[i]))
  }

  /** The samples: each kept word reduced by its bound. */
  ghost function Samples(word: nat -> nat, words: nat, bounds: seq<nat>): (vs: seq<nat>)
    requires ValidBounds(words, bounds) && Productive(word, words)
    ensures |vs| == |bounds|
  {
    Residues(bounds, KeptWords(word, words, bounds))
  }

  /** ps are the draws kept when the samples use the stream consecutively and each keeps its first acceptable word. */
  ghost predicate ConsecutiveDraws(word: nat -> nat, words: nat, bounds: seq<nat>, ps: seq<nat>)
    requires ValidBounds(words, bounds)
  {
    && |ps| == |bounds|
    && forall i :: 0 <= i < |ps| ==>
                     && Cursor(ps[..i]) <= ps[i]
                     && AcceptedAt(word, words, bounds[i], ps[i])
                     && forall k :: Cursor(ps[..i]) <= k < ps[i] ==> !AcceptedAt(word, words, bounds[i], k)
  }

  lemma {:induction false} PositionsAreConsecutive(word: nat -> nat, words: nat, bounds: seq<nat>)
    requires ValidBounds(words, bounds) && Productive(word, words)
    ensures ConsecutiveDraws(word, words, bounds, Positions(word, words, bounds))
  {
    if bounds != [] {
      var last := |bounds| - 1;
      PositionsAreConsecutive(word, words, bounds[..last]);
      var init := Positions(word, words, bounds[..last]);
      var ps := Positions(word, words, bounds);
      forall i | 0 <= i < |ps|
        ensures Cursor(ps[..i]) <= ps[i] && AcceptedAt(word, words, bounds[i], ps[i])
        ensures forall k :: Cursor(ps[..i]) <= k < ps[i] ==> !AcceptedAt(word, words, bounds[i], k)
      {
        if i == last {
          assert ps[..i] == init;
        } else {
          assert ps[..i] == init[..i] && ps[i] == init[i] && bounds[i] == bounds[..last][i];
        }
      }
    }
  }

  /** A draw is the first accepted one at or after the cursor, so there is one. */
  lemma FirstDrawUnique(word: nat -> nat, words: nat, bound: nat, cursor: nat, p: nat, q: nat)
    requires bound > 0
    requires cursor <= p && AcceptedAt(word, words, bound, p)
    requires forall k :: cursor <= k < p ==> !AcceptedAt(word, words, bound, k)
    requires cursor <= q && AcceptedAt(word, words, bound, q)
    requires forall k :: cursor <= k < q ==> !AcceptedAt(word, words, bound, k)
    ensures p == q
  {
  }

  lemma DrawAgrees(word: nat -> nat, words: nat, bounds: seq<nat>, ps: seq<nat>, qs: seq<nat>, i: nat)
    requires ValidBounds(words, bounds) && i < |bounds|
    requires ConsecutiveDraws(word, words, bounds, ps) && ConsecutiveDraws(word, words, bounds, qs)
    requires ps[..i] == qs[..i]
    ensures ps[i] == qs[i]
  {
    FirstDrawUnique(word, words, bounds[i], Cursor(ps[..i]), ps[i], qs[i]);
  }

  lemma {:induction false} DrawsAgree(word: nat -> nat, words: nat, bounds: seq<nat>, ps: seq<nat>, qs: seq<nat>,
      n: nat)
    requires ValidBounds(words, bounds) && n <= |bounds|
    requires ConsecutiveDraws(word, words, bounds, ps) && ConsecutiveDraws(word, words, bounds, qs)
    ensures ps[..n] == qs[..n]
  {
    if n > 0 {
      DrawsAgree(word, words, bounds, ps, qs, n - 1);
      DrawAgrees(word, words, bounds, ps, qs, n - 1);
      TakeLast(ps, n);
      TakeLast(qs, n);
    }
  }

  lemma TakeLast<T>(s: seq<T>, n: nat)
    requires 0 < n <= |s|
    ensures s[..n] == s[..n - 1] + [s[n - 1]]
  {
  }

  /** Only one way of using the stream consecutively exists, so the samples are a function of the stream. */
  lemma ConsecutiveDrawsUnique(word: nat -> nat, words: nat, bounds: seq<nat>, ps: seq<nat>, qs: seq<nat>)
    requires ValidBounds(words, bounds)
    requires ConsecutiveDraws(word, words, bounds, ps) && ConsecutiveDraws(word, words, bounds, qs)
    ensures ps == qs
  {
    DrawsAgree(word, words, bounds, ps, qs, |bounds|);
    assert ps[..|bounds|] == ps && qs[..|bounds|] == qs;
  }

  /** The kept words are an accepted vector, so the uniformity lemma speaks about the samples of a stream. */
  lemma KeptWordsAccepted(word: nat -> nat, words: nat, bounds: seq<nat>)
    requires ValidBounds(words, bounds) && Productive(word, words)
    ensures AcceptedVector(words, bounds, KeptWords(word, words, bounds))
    ensures forall i :: 0 <= i < |bounds| ==> Samples(word, words, bounds)[i] < bounds[i]
  {
    PositionsAreConsecutive(word, words, bounds);
  }

  lemma {:induction false} PositionsPrefix(word: nat -> nat, words: nat, bounds: seq<nat>, n: nat)
    requires ValidBounds(words, bounds) && Productive(word, words) && n <= |bounds|
    ensures Positions(word, words, bounds[..n]) == Positions(word, words, bounds)[..n]
  {
    if n == |bounds| {
      assert bounds[..n] == bounds;
    } else {
      var init := bounds[..|bounds| - 1];
      PositionsPrefix(word, words, init, n);
      assert init[..n] == bounds[..n];
    }
  }

  /** Where the cursor stands before the n-th sample. */
  ghost function CursorAt(word: nat -> nat, words: nat, bounds: seq<nat>, n: nat): nat
    requires ValidBounds(words, bounds) && Productive(word, words) && n <= |bounds|
  {
    Cursor(Positions(word, words, bounds)[..n])
  }

  /** The n-th sample is taken where the cursor stands after the samples before it. */
  lemma NextSample(word: nat -> nat, words: nat, bounds: seq<nat>, n: nat)
    requires ValidBounds(words, bounds) && Productive(word, words) && n < |bounds|
    ensures var c := CursorAt(word, words, bounds, n);
            var k := Draw(word, words, bounds[n], c);
            && CursorAt(word, words, bounds, n + 1) == k + 1
            && Samples(word, words, bounds)[n] == word(k) % bounds[n]
  {
    PositionsPrefix(word, words, bounds, n + 1);
    PositionsPrefix(word, words, bounds, n);
    assert bounds[..n + 1][..n] == bounds[..n];
  }

  /** The n-th of a run of samples, from the cursor the samples before it left. */
  method SampleNext(word: nat -> nat, words: nat, bound: nat, c: nat, ghost bounds: seq<nat>, ghost n: nat)
    returns (value: nat, next: nat)
    requires ValidBounds(words, bounds) && Productive(word, words)
    requires n < |bounds| && bounds[n] == bound && c == CursorAt(word, words, bounds, n)
    ensures value == Samples(word, words, bounds)[n]
    ensures next == CursorAt(word, words, bounds, n + 1)
  {
    NextSample(word, words, bounds, n);
    value, next := Sample(word, words, bound, c);
  }
}
