/** Types and facts about sequences that the models share. */
module Common {

  datatype Option<+T> = None | Some(value: T)

  /** What a function that may throw returns: its value, or that it threw. */
  datatype Result<+T, +E> = Ok(value: T) | Err(error: E)

  /** One byte of a buffer. */
  type byte = b: int | 0 <= b < 256

  ghost predicate Distinct<T>(s: seq<T>) {
    forall i, j :: 0 <= i < j < |s| ==> s[i] != s[j]
  }

  const MAX_UINT64 := 0xFFFF_FFFF_FFFF_FFFF

  /** Concatenation is associative, for three and for four. */
  lemma Regroup<T>(a: seq<T>, b: seq<T>, c: seq<T>, d: seq<T>)
    ensures (a + b) + d == a + (b + d)
    ensures (a + (b + c)) + d == a + (b + (c + d))
  {
  }

  /** A sequence without repeats holds a value at most once. */
  lemma DistinctCount<T>(s: seq<T>, x: T)
    requires Distinct(s)
    ensures multiset(s)[x] <= 1
  {
    if x in s {
      var k :| 0 <= k < |s| && s[k] == x;
      assert s == s[..k] + [x] + s[k + 1..];
      assert x !in s[..k] && x !in s[k + 1..];
    }
  }

  lemma RepeatCount<T>(s: seq<T>, i: nat, j: nat)
    requires i < j < |s| && s[i] == s[j]
    ensures multiset(s)[s[i]] >= 2
  {
    assert s == s[..i] + [s[i]] + s[i + 1..j] + [s[j]] + s[j + 1..];
  }
}
