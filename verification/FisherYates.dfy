/**
 The partial Fisher-Yates shuffle of `mapRandomness` (src/mapping.ts): `Select` is what the swap loop outputs for a
 vector of choices, `Choices` reads the choices back from an output. The two are mutual inverses, so the loop is a
 bijection from choice vectors onto arrangements.
 */
module FisherYates {
  import opened Common

  /** A pool with two of its entries exchanged: each goes to the other's index, and no other entry moves. */
  function Swap<T>(pool: seq<T>, i: nat, j: nat): (r: seq<T>)
    requires i < |pool| && j < |pool|
    ensures |r| == |pool| && r[i] == pool[j] && r[j] == pool[i]
    ensures forall k :: 0 <= k < |pool| && k != i && k != j ==> r[k] == pool[k]
  {
    pool[i := pool[j]][j := pool[i]]
  }

  /** The choices a loop that starts at index i may make from a pool of n: the k-th lies in [i + k, n). */
  ghost predicate ValidChoices(js: seq<nat>, i: nat, n: nat) {
    && i + |js| <= n
    && forall k :: 0 <= k < |js| ==> i + k <= js[k] < n
  }

  /** The pool after the loop has made the choices js from index i on. */
  ghost function PoolAfter<T>(pool: seq<T>, i: nat, js: seq<nat>): (r: seq<T>)
    requires ValidChoices(js, i, |pool|)
    ensures |r| == |pool|
    ensures r[..i] == pool[..i]
    decreases |js|
  {
    if js == [] then pool
    else
      assert ValidChoices(js[1..], i + 1, |pool|);
      var p := Swap(pool, i, js[0]);
      var r := PoolAfter(p, i + 1, js[1..]);
      assert r[..i] == r[..i + 1][..i] == p[..i] == pool[..i];
      r
  }

  /** What the loop outputs: at each index the entry that its swap brings there. */
  ghost function Select<T>(pool: seq<T>, i: nat, js: seq<nat>): (out: seq<T>)
    requires ValidChoices(js, i, |pool|)
    ensures |out| == |js|
    decreases |js|
  {
    if js == [] then []
    else
      assert ValidChoices(js[1..], i + 1, |pool|);
      [pool[js[0]]] + Select(Swap(pool, i, js[0]), i + 1, js[1..])
  }

  /** The first index at or after i that holds x. */
  ghost function IndexFrom<T>(pool: seq<T>, i: nat, x: T): (j: nat)
    requires i <= |pool| && x in pool[i..]
    ensures i <= j < |pool| && pool[j] == x
    ensures forall k :: i <= k < j ==> pool[k] != x
    decreases |pool| - i
  {
    if pool[i] == x then i else IndexFrom(pool, i + 1, x)
  }

  /** Sequences of distinct members of pool[i..]. */
  ghost predicate Arrangement<T>(out: seq<T>, pool: seq<T>, i: nat) {
    && i <= |pool|
    && |out| <= |pool| - i
    && Distinct(out)
    && forall k :: 0 <= k < |out| ==> out[k] in pool[i..]
  }

  /** The choices that make the loop output an arrangement. */
  ghost function Choices<T(!new)>(pool: seq<T>, i: nat, out: seq<T>): (js: seq<nat>)
    requires Distinct(pool) && Arrangement(out, pool, i)
    ensures |js| == |out|
    decreases |out|
  {
    if out == [] then []
    else
      var j := IndexFrom(pool, i, out[0]);
      ArrangementTail(pool, i, out);
      [j] + Choices(Swap(pool, i, j), i + 1, out[1..])
  }

  lemma SwapDistinct<T>(pool: seq<T>, i: nat, j: nat)
    requires i < |pool| && j < |pool| && Distinct(pool)
    ensures Distinct(Swap(pool, i, j))
  {
  }

  /** Once the entry for out[0] has been swapped to index i, the rest of out still lies after it. */
  lemma ArrangementTail<T(!new)>(pool: seq<T>, i: nat, out: seq<T>)
    requires Distinct(pool) && Arrangement(out, pool, i) && out != []
    ensures var p := Swap(pool, i, IndexFrom(pool, i, out[0])); Distinct(p) && Arrangement(out[1..], p, i + 1)
  {
    var j := IndexFrom(pool, i, out[0]);
    var p := Swap(pool, i, j);
    SwapDistinct(pool, i, j);
    forall k | 0 <= k < |out[1..]|
      ensures out[1..][k] in p[i + 1..]
    {
      var x := out[k + 1];
      assert x != out[0];
      var m := IndexFrom(pool, i, x);
      assert p[if m == i then j else m] == x;
      assert p[i + 1..][(if m == i then j else m) - (i + 1)] == x;
    }
  }

  /** After a swap of i and j >= i, what lies behind i was at or behind i, and is not what the swap brought to i. */
  lemma BehindSwap<T(!new)>(pool: seq<T>, i: nat, j: nat, x: T)
    requires Distinct(pool) && i <= j < |pool| && x in Swap(pool, i, j)[i + 1..]
    ensures x != pool[j] && x in pool[i..]
  {
    var m := IndexFrom(Swap(pool, i, j), i + 1, x);
    assert pool[if m == j then i else m] == x;
    assert pool[i..][(if m == j then i else m) - i] == x;
  }

  /** An entry in front of an arrangement of what lies behind its swap makes an arrangement. */
  lemma ArrangementCons<T(!new)>(pool: seq<T>, i: nat, j: nat, rest: seq<T>)
    requires Distinct(pool) && i <= j < |pool| && Arrangement(rest, Swap(pool, i, j), i + 1)
    ensures Arrangement([pool[j]] + rest, pool, i)
  {
    var out := [pool[j]] + rest;
    forall k | 0 < k < |out| ensures out[k] != out[0] && out[k] in pool[i..] {
      assert out[k] == rest[k - 1];
      BehindSwap(pool, i, j, rest[k - 1]);
    }
    assert pool[i..][j - i] == out[0];
    forall a, b | 0 < a < b < |out| ensures out[a] != out[b] {
      assert out[a] == rest[a - 1] && out[b] == rest[b - 1];
    }
  }

  lemma {:induction false} SelectIsArrangement<T(!new)>(pool: seq<T>, i: nat, js: seq<nat>)
    requires Distinct(pool) && ValidChoices(js, i, |pool|)
    ensures Arrangement(Select(pool, i, js), pool, i)
    decreases |js|
  {
    if js != [] {
      var p := Swap(pool, i, js[0]);
      SwapDistinct(pool, i, js[0]);
      assert ValidChoices(js[1..], i + 1, |pool|);
      SelectIsArrangement(p, i + 1, js[1..]);
      ArrangementCons(pool, i, js[0], Select(p, i + 1, js[1..]));
    }
  }

  /** Reading the choices back from an output gives the choices that made it. */
  lemma {:induction false} ChoicesOfSelect<T(!new)>(pool: seq<T>, i: nat, js: seq<nat>)
    requires Distinct(pool) && ValidChoices(js, i, |pool|)
    ensures Arrangement(Select(pool, i, js), pool, i)
    ensures Choices(pool, i, Select(pool, i, js)) == js
    decreases |js|
  {
    SelectIsArrangement(pool, i, js);
    if js != [] {
      var j := js[0];
      SwapDistinct(pool, i, j);
      assert ValidChoices(js[1..], i + 1, |pool|);
      ChoicesOfSelect(Swap(pool, i, j), i + 1, js[1..]);
      var out := Select(pool, i, js);
      assert IndexFrom(pool, i, out[0]) == j;
      assert out[1..] == Select(Swap(pool, i, j), i + 1, js[1..]);
    }
  }

  lemma ValidChoicesCons(j: nat, rest: seq<nat>, i: nat, n: nat)
    requires i <= j < n && ValidChoices(rest, i + 1, n)
    ensures ValidChoices([j] + rest, i, n)
  {
    var js := [j] + rest;
    forall k | 0 <= k < |js| ensures i + k <= js[k] < n {
      if k > 0 { assert js[k] == rest[k - 1]; }
    }
  }

  lemma SelectCons<T>(pool: seq<T>, i: nat, j: nat, rest: seq<nat>)
    requires i <= j < |pool| && ValidChoices(rest, i + 1, |pool|) && ValidChoices([j] + rest, i, |pool|)
    ensures Select(pool, i, [j] + rest) == [pool[j]] + Select(Swap(pool, i, j), i + 1, rest)
  {
    assert ([j] + rest)[1..] == rest;
  }

  lemma ChoiceBefore<T>(pool: seq<T>, i: nat, j: nat, rest: seq<nat>, out: seq<T>)
    requires i <= j < |pool| && out != [] && pool[j] == out[0]
    requires ValidChoices(rest, i + 1, |pool|) && Select(Swap(pool, i, j), i + 1, rest) == out[1..]
    ensures ValidChoices([j] + rest, i, |pool|) && Select(pool, i, [j] + rest) == out
  {
    ValidChoicesCons(j, rest, i, |pool|);
    SelectCons(pool, i, j, rest);
    assert out == [out[0]] + out[1..];
  }

  /** Every arrangement is output by the choices read from it, and they are valid. */
  lemma {:induction false} SelectOfChoices<T(!new)>(pool: seq<T>, i: nat, out: seq<T>)
    requires Distinct(pool) && Arrangement(out, pool, i)
    ensures ValidChoices(Choices(pool, i, out), i, |pool|)
    ensures Select(pool, i, Choices(pool, i, out)) == out
    decreases |out|
  {
    if out != [] {
      var j := IndexFrom(pool, i, out[0]);
      ArrangementTail(pool, i, out);
      var p := Swap(pool, i, j);
      SelectOfChoices(p, i + 1, out[1..]);
      ChoiceBefore(pool, i, j, Choices(p, i + 1, out[1..]), out);
    }
  }

  // ---- the output from the pools of the loop

  /** The entries at two indices have changed places, and no other has moved. */
  ghost predicate Exchanged<T(!new)>(before: seq<T>, after: seq<T>, i: nat, j: nat) {
    && |after| == |before| && i < |before| && j < |before|
    && after[i] == before[j] && after[j] == before[i]
    && forall k :: 0 <= k < |before| && k != i && k != j ==> after[k] == before[k]
  }

  /**
   The pools the loop goes through, one more than it makes choices: from each to the next the entry at the loop's index
   and the chosen one change places, and the output is what stands at that index then.
   */
  ghost predicate Traces<T(!new)>(pools: seq<seq<T>>, i: nat, js: seq<nat>, out: seq<T>) {
    && |pools| == |js| + 1 && |out| == |js|
    && forall k :: 0 <= k < |js| ==> Exchanged(pools[k], pools[k + 1], i + k, js[k]) && out[k] == pools[k + 1][i + k]
  }

  lemma TraceStep<T(!new)>(pool: seq<T>, i: nat, js: seq<nat>, rest: seq<seq<T>>, out: seq<T>)
    requires js != [] && out != [] && |rest| > 0 && Traces(rest, i + 1, js[1..], out[1..])
    requires Exchanged(pool, rest[0], i, js[0]) && out[0] == rest[0][i]
    ensures Traces([pool] + rest, i, js, out)
  {
    var pools := [pool] + rest;
    forall k | 0 <= k < |js| ensures Exchanged(pools[k], pools[k + 1], i + k, js[k]) && out[k] == pools[k + 1][i + k] {
      if k > 0 {
        assert js[k] == js[1..][k - 1] && out[k] == out[1..][k - 1];
        assert Exchanged(rest[k - 1], rest[k], i + 1 + (k - 1), js[1..][k - 1]);
        assert pools[k] == rest[k - 1] && pools[k + 1] == rest[k];
      }
    }
  }

  /** The output is what the loop's exchanges bring to its indices, one after another. */
  lemma {:induction false} SelectIsTraced<T(!new)>(pool: seq<T>, i: nat, js: seq<nat>) returns (pools: seq<seq<T>>)
    requires ValidChoices(js, i, |pool|)
    ensures |pools| > 0 && pools[0] == pool && Traces(pools, i, js, Select(pool, i, js))
    decreases |js|
  {
    pools := [pool];
    if js != [] {
      assert ValidChoices(js[1..], i + 1, |pool|);
      var out := Select(pool, i, js);
      var p := Swap(pool, i, js[0]);
      var rest := SelectIsTraced(p, i + 1, js[1..]);
      assert out[1..] == Select(p, i + 1, js[1..]);
      TraceStep(pool, i, js, rest, out);
      pools := [pool] + rest;
    }
  }

  // ---- the output as the front of the shuffled pool

  lemma SwapKeepsMultiset<T>(pool: seq<T>, i: nat, j: nat)
    requires i < |pool| && j < |pool|
    ensures multiset(Swap(pool, i, j)) == multiset(pool)
  {
  }

  lemma {:induction false} PoolIsPermuted<T>(pool: seq<T>, i: nat, js: seq<nat>)
    requires ValidChoices(js, i, |pool|)
    ensures multiset(PoolAfter(pool, i, js)) == multiset(pool)
    decreases |js|
  {
    if js != [] {
      assert ValidChoices(js[1..], i + 1, |pool|);
      PoolIsPermuted(Swap(pool, i, js[0]), i + 1, js[1..]);
      SwapKeepsMultiset(pool, i, js[0]);
    }
  }

  /** The output is the part of the final pool that the loop has passed. */
  lemma {:induction false} SelectIsFront<T>(pool: seq<T>, i: nat, js: seq<nat>)
    requires ValidChoices(js, i, |pool|)
    ensures PoolAfter(pool, i, js)[i..i + |js|] == Select(pool, i, js)
    decreases |js|
  {
    if js != [] {
      assert ValidChoices(js[1..], i + 1, |pool|);
      var p := Swap(pool, i, js[0]);
      SelectIsFront(p, i + 1, js[1..]);
      var r := PoolAfter(p, i + 1, js[1..]);
      assert r[i] == r[..i + 1][i] == p[..i + 1][i] == p[i];
      assert r[i..i + |js|] == [r[i]] + r[i + 1..i + |js|];
    }
  }

  lemma MultisetDistinct<T>(s: seq<T>, t: seq<T>)
    requires multiset(s) == multiset(t) && Distinct(t)
    ensures Distinct(s)
  {
    forall i, j | 0 <= i < j < |s| ensures s[i] != s[j] {
      DistinctCount(t, s[i]);
      if s[i] == s[j] {
        RepeatCount(s, i, j);
      }
    }
  }

  /** With as many choices as entries the outputs are exactly the permutations of the pool. */
  lemma FullArrangementsArePermutations<T(!new)>(pool: seq<T>, out: seq<T>)
    requires Distinct(pool)
    ensures |out| == |pool| && Arrangement(out, pool, 0) <==> multiset(out) == multiset(pool)
  {
    if |out| == |pool| && Arrangement(out, pool, 0) {
      var js := Choices(pool, 0, out);
      SelectOfChoices(pool, 0, out);
      SelectIsFront(pool, 0, js);
      PoolIsPermuted(pool, 0, js);
      assert PoolAfter(pool, 0, js)[0..|js|] == PoolAfter(pool, 0, js);
    }
    if multiset(out) == multiset(pool) {
      MultisetDistinct(out, pool);
      assert |multiset(out)| == |out| && |multiset(pool)| == |pool|;
      forall k | 0 <= k < |out| ensures out[k] in pool[0..] {
        assert out[k] in multiset(out);
      }
    }
  }
}
