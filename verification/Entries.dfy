/**
 Named entries as JavaScript keeps them: names are sequences of UTF-16 code units compared unit by unit, entries are
 sorted by name, and an object made of entries maps each name to its value.
 */
module Entries {

  /** A string by its UTF-16 code units. */
  type Text = seq<nat>

  /** `a < b` on strings. */
  predicate Less(a: Text, b: Text) {
    if b == [] then false
    else if a == [] then true
    else if a[0] != b[0] then a[0] < b[0]
    else Less(a[1..], b[1..])
  }

  lemma {:induction false} LessTransitive(a: Text, b: Text, c: Text)
    requires Less(a, b) && Less(b, c)
    ensures Less(a, c)
  {
    if a != [] && a[0] == b[0] == c[0] { LessTransitive(a[1..], b[1..], c[1..]); }
  }

  lemma {:induction false} LessTotal(a: Text, b: Text)
    ensures Less(a, b) || a == b || Less(b, a)
    ensures !(Less(a, b) && Less(b, a)) && !Less(a, a)
  {
    if a != [] {
      LessTotal(a[1..], a[1..]);
      if b != [] {
        LessTotal(a[1..], b[1..]);
        assert a == [a[0]] + a[1..] && b == [b[0]] + b[1..];
      }
    }
  }

  /** Where two texts first differ: one ends there and the other goes on, or their code units are in order there. */
  ghost predicate DiffersAt(a: Text, b: Text, k: nat) {
    && k <= |a| && k <= |b| && a[..k] == b[..k]
    && ((k == |a| && k < |b|) || (k < |a| && k < |b| && a[k] < b[k]))
  }

  ghost predicate Precedes(a: Text, b: Text) {
    exists k: nat :: DiffersAt(a, b, k)
  }

  lemma FrontsDiffer(a: Text, b: Text, k: nat)
    requires a != [] && b != [] && a[0] != b[0] && 0 < k <= |a| && k <= |b|
    ensures a[..k] != b[..k]
  {
    assert a[..k][0] == a[0] && b[..k][0] == b[0];
  }

  /** The order is that of the first code unit in which the texts differ, a text before those it begins. */
  lemma {:induction false} LessIff(a: Text, b: Text)
    ensures Less(a, b) <==> Precedes(a, b)
  {
    if a == [] {
      if b != [] { assert DiffersAt(a, b, 0); }
    } else if b != [] && a[0] == b[0] {
      LessIff(a[1..], b[1..]);
      if k: nat :| DiffersAt(a[1..], b[1..], k) {
        assert a[..k + 1] == [a[0]] + a[1..][..k] && b[..k + 1] == [b[0]] + b[1..][..k];
        assert DiffersAt(a, b, k + 1);
      }
      if k: nat :| DiffersAt(a, b, k) {
        assert k > 0;
        assert a[1..][..k - 1] == a[..k][1..] && b[1..][..k - 1] == b[..k][1..];
        assert DiffersAt(a[1..], b[1..], k - 1);
      }
    } else if b != [] {
      if a[0] < b[0] { assert DiffersAt(a, b, 0); }
      forall k | 0 < k <= |a| && k <= |b| ensures a[..k] != b[..k] { FrontsDiffer(a, b, k); }
    }
  }

  /** A text by its characters, all of them ASCII. */
  function Codes(s: string): (t: Text)
    ensures |t| == |s| && forall i :: 0 <= i < |s| ==> t[i] == s[i] as nat
  {
    seq(|s|, i requires 0 <= i < |s| => s[i] as nat)
  }

  predicate UniqueKeys<V>(es: seq<(Text, V)>) {
    forall i, j :: 0 <= i < j < |es| ==> es[i].0 != es[j].0
  }

  predicate Ascending<V>(es: seq<(Text, V)>) {
    forall i, j :: 0 <= i < j < |es| ==> Less(es[i].0, es[j].0)
  }

  // ---- sorting

  function Insert<V>(e: (Text, V), es: seq<(Text, V)>): (r: seq<(Text, V)>)
    ensures |r| == |es| + 1
  {
    if es == [] || !Less(es[0].0, e.0) then [e] + es else [es[0]] + Insert(e, es[1..])
  }

  /** The entries in order of their names. */
  function Sort<V>(es: seq<(Text, V)>): (r: seq<(Text, V)>)
    ensures |r| == |es|
  {
    if es == [] then [] else Insert(es[0], Sort(es[1..]))
  }

  lemma {:induction false} InsertMembers<V>(e: (Text, V), es: seq<(Text, V)>, x: (Text, V))
    ensures x in Insert(e, es) <==> x == e || x in es
  {
    if es != [] && Less(es[0].0, e.0) {
      InsertMembers(e, es[1..], x);
      assert es == [es[0]] + es[1..];
    }
  }

  /** Sorting keeps the entries. */
  lemma {:induction false} SortMembers<V>(es: seq<(Text, V)>, x: (Text, V))
    ensures x in Sort(es) <==> x in es
  {
    if es != [] {
      SortMembers(es[1..], x);
      InsertMembers(es[0], Sort(es[1..]), x);
      assert es == [es[0]] + es[1..];
    }
  }

  lemma {:induction false} InsertAscends<V>(e: (Text, V), es: seq<(Text, V)>)
    requires Ascending(es) && forall i :: 0 <= i < |es| ==> es[i].0 != e.0
    ensures Ascending(Insert(e, es))
  {
    if es == [] {
    } else if !Less(es[0].0, e.0) {
      LessTotal(e.0, es[0].0);
      forall j | 0 <= j < |es| ensures Less(e.0, es[j].0) {
        if j > 0 { LessTransitive(e.0, es[0].0, es[j].0); }
      }
    } else {
      var rest := es[1..];
      InsertAscends(e, rest);
      var r := Insert(e, rest);
      forall j | 0 <= j < |r| ensures Less(es[0].0, r[j].0) {
        InsertMembers(e, rest, r[j]);
        if r[j] in rest { var k :| 0 <= k < |rest| && rest[k] == r[j]; assert rest[k] == es[k + 1]; }
      }
    }
  }

  /** Entries with different names come out strictly ascending. */
  lemma {:induction false} SortAscends<V>(es: seq<(Text, V)>)
    requires UniqueKeys(es)
    ensures Ascending(Sort(es))
  {
    if es != [] {
      SortAscends(es[1..]);
      var sorted := Sort(es[1..]);
      forall i | 0 <= i < |sorted| ensures sorted[i].0 != es[0].0 {
        SortMembers(es[1..], sorted[i]);
        var k :| 0 <= k < |es[1..]| && es[1..][k] == sorted[i];
      }
      InsertAscends(es[0], sorted);
    }
  }

  lemma AscendingIsUnique<V>(es: seq<(Text, V)>)
    requires Ascending(es)
    ensures UniqueKeys(es)
  {
    forall i, j | 0 <= i < j < |es| ensures es[i].0 != es[j].0 { LessTotal(es[i].0, es[j].0); }
  }

  /** Entries already in order stay as they are. */
  lemma {:induction false} SortOfAscending<V>(es: seq<(Text, V)>)
    requires Ascending(es)
    ensures Sort(es) == es
  {
    if es != [] {
      SortOfAscending(es[1..]);
      assert es == [es[0]] + es[1..];
      if |es| > 1 { LessTotal(es[0].0, es[1].0); }
    }
  }

  /** Two strictly ascending lists with the same members are the same list. */
  lemma {:induction false} AscendingUnique<V>(a: seq<(Text, V)>, b: seq<(Text, V)>)
    requires Ascending(a) && Ascending(b) && forall x :: x in a <==> x in b
    ensures a == b
  {
    assert |b| > 0 ==> b[0] in b;
    if a != [] {
      assert a[0] in a;
      HeadsAgree(a, b);
      forall x ensures x in a[1..] <==> x in b[1..] { TailMembers(a, x); TailMembers(b, x); }
      AscendingUnique(a[1..], b[1..]);
      assert a == [a[0]] + a[1..] && b == [b[0]] + b[1..];
    }
  }

  lemma TailMembers<V>(a: seq<(Text, V)>, x: (Text, V))
    requires a != [] && Ascending(a)
    ensures x in a[1..] <==> x in a && x != a[0]
  {
    if x in a[1..] {
      var k :| 0 <= k < |a[1..]| && a[1..][k] == x;
      LessTotal(a[0].0, a[k + 1].0);
    }
  }

  lemma HeadsAgree<V>(a: seq<(Text, V)>, b: seq<(Text, V)>)
    requires a != [] && b != [] && Ascending(a) && Ascending(b)
    requires a[0] in b && b[0] in a
    ensures a[0] == b[0]
  {
    var i :| 0 <= i < |a| && a[i] == b[0];
    var j :| 0 <= j < |b| && b[j] == a[0];
    LessTotal(a[0].0, b[0].0);
  }

  // ---- objects

  /** `Object.fromEntries`: the object of entries; of entries with one name the last counts. */
  function AsMap<V>(es: seq<(Text, V)>): map<Text, V> {
    if es == [] then map[] else AsMap(es[..|es| - 1])[es[|es| - 1].0 := es[|es| - 1].1]
  }

  /** With different names, the object holds exactly the entries. */
  lemma {:induction false} AsMapHolds<V>(es: seq<(Text, V)>, name: Text, value: V)
    requires UniqueKeys(es)
    ensures name in AsMap(es) && AsMap(es)[name] == value <==> (name, value) in es
  {
    if es != [] {
      var n := |es| - 1;
      AsMapHolds(es[..n], name, value);
      assert es == es[..n] + [es[n]];
    }
  }

  /** Equal objects have equal members. */
  lemma SameObjectSameMembers<V>(a: seq<(Text, V)>, b: seq<(Text, V)>)
    requires UniqueKeys(a) && UniqueKeys(b) && AsMap(a) == AsMap(b)
    ensures forall x :: x in a <==> x in b
  {
    forall x: (Text, V) ensures x in a <==> x in b {
      AsMapHolds(a, x.0, x.1);
      AsMapHolds(b, x.0, x.1);
      assert x == (x.0, x.1);
    }
  }

  /** The object of sorted entries is the object of the entries, and sorted entries are determined by it. */
  lemma SortedIsDetermined<V>(a: seq<(Text, V)>, b: seq<(Text, V)>)
    requires UniqueKeys(a) && UniqueKeys(b)
    ensures AsMap(a) == AsMap(b) <==> Sort(a) == Sort(b)
  {
    forall x: (Text, V) ensures (x in Sort(a) <==> x in a) && (x in Sort(b) <==> x in b) {
      SortMembers(a, x);
      SortMembers(b, x);
    }
    if AsMap(a) == AsMap(b) {
      SameObjectSameMembers(a, b);
      SortAscends(a);
      SortAscends(b);
      AscendingUnique(Sort(a), Sort(b));
    }
    if Sort(a) == Sort(b) { SameMembersSameObject(a, b); }
  }

  lemma SameMembersSameObject<V>(a: seq<(Text, V)>, b: seq<(Text, V)>)
    requires UniqueKeys(a) && UniqueKeys(b) && forall x :: x in a <==> x in b
    ensures AsMap(a) == AsMap(b)
  {
    forall name ensures name in AsMap(a) <==> name in AsMap(b) {
      if name in AsMap(a) { AsMapHolds(a, name, AsMap(a)[name]); AsMapHolds(b, name, AsMap(a)[name]); }
      if name in AsMap(b) { AsMapHolds(b, name, AsMap(b)[name]); AsMapHolds(a, name, AsMap(b)[name]); }
    }
    forall name | name in AsMap(a) ensures AsMap(a)[name] == AsMap(b)[name] {
      AsMapHolds(a, name, AsMap(a)[name]);
      AsMapHolds(b, name, AsMap(a)[name]);
    }
  }
}
