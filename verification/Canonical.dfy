/**
 The canonical form of API requests (`canonical` and `canonicalApiRequest`, src/sources.ts). JSON values are trees; an
 object is its entries in the order they were given. What an object means is a map, so two values mean the same when
 they are equal as nested maps.
 */
module Canonical {
  import opened Common
  import opened Entries

  datatype Json =
    | Null | Bool(value: bool) | Number(id: nat) | Str(text: Text)
    | Arr(items: seq<Json>) | Obj(entries: seq<(Text, Json)>)

  /** No object, at any depth, has a name twice. */
  ghost predicate WellKeyed(v: Json) {
    match v
    case Arr(items) => forall i :: 0 <= i < |items| ==> WellKeyed(items[i])
    case Obj(entries) => UniqueKeys(entries) && forall i :: 0 <= i < |entries| ==> WellKeyed(entries[i].1)
    case _ => true
  }

  /** An object becomes its [name, value] entries sorted by name, arrays keep their order. */
  function Canonical(v: Json): Json {
    match v
    case Arr(items) => Arr(seq(|items|, i requires 0 <= i < |items| => Canonical(items[i])))
    case Obj(entries) =>
      var sorted := Sort(entries);
      Arr(seq(|sorted|, i requires 0 <= i < |sorted| =>
        SortMembers(entries, sorted[i]);
        Arr([Str(sorted[i].0), Canonical(sorted[i].1)])))
    case _ => v
  }

  /** A value as nested maps. */
  datatype Tree = Atom(atom: Json) | List(trees: seq<Tree>) | Object(fields: map<Text, Tree>)

  function Meaning(v: Json): Tree {
    match v
    case Arr(items) => List(seq(|items|, i requires 0 <= i < |items| => Meaning(items[i])))
    case Obj(entries) => Object(AsMap(seq(|entries|,
        i requires 0 <= i < |entries| => (entries[i].0, Meaning(entries[i].1)))))
    case _ => Atom(v)
  }

  // ---- sorting and values

  /** The entries with a function applied to their values. */
  ghost function MapValues<V, W>(es: seq<(Text, V)>, f: V -> W): (r: seq<(Text, W)>)
    ensures |r| == |es| && forall i :: 0 <= i < |es| ==> r[i] == (es[i].0, f(es[i].1))
  {
    seq(|es|, i requires 0 <= i < |es| => (es[i].0, f(es[i].1)))
  }

  lemma {:induction false} InsertMaps<V, W>(e: (Text, V), es: seq<(Text, V)>, f: V -> W)
    ensures Insert((e.0, f(e.1)), MapValues(es, f)) == MapValues(Insert(e, es), f)
  {
    if es != [] && Less(es[0].0, e.0) {
      InsertMaps(e, es[1..], f);
      assert MapValues(es, f)[1..] == MapValues(es[1..], f);
    }
  }

  /** Sorting looks at names only. */
  lemma {:induction false} SortMaps<V, W>(es: seq<(Text, V)>, f: V -> W)
    ensures Sort(MapValues(es, f)) == MapValues(Sort(es), f)
  {
    if es != [] {
      SortMaps(es[1..], f);
      InsertMaps(es[0], Sort(es[1..]), f);
      assert MapValues(es, f)[1..] == MapValues(es[1..], f);
    }
  }

  lemma MeaningOfObject(entries: seq<(Text, Json)>)
    ensures Meaning(Obj(entries)) == Object(AsMap(MapValues(entries, Meaning)))
  {
    assert MapValues(entries, Meaning) == seq(|entries|,
        i requires 0 <= i < |entries| => (entries[i].0, Meaning(entries[i].1)));
  }

  /** Two objects mean the same exactly when their sorted entries agree name by name and value by value. */
  lemma ObjectsMeanTheSame(a: seq<(Text, Json)>, b: seq<(Text, Json)>)
    requires UniqueKeys(a) && UniqueKeys(b)
    ensures Meaning(Obj(a)) == Meaning(Obj(b)) <==>
            |a| == |b| && forall i :: 0 <= i < |a| ==>
                Sort(a)[i].0 == Sort(b)[i].0 && Meaning(Sort(a)[i].1) == Meaning(Sort(b)[i].1)
  {
    MeaningOfObject(a);
    MeaningOfObject(b);
    SortedIsDetermined(MapValues(a, Meaning), MapValues(b, Meaning));
    SortMaps(a, Meaning);
    SortMaps(b, Meaning);
    var sa, sb := MapValues(Sort(a), Meaning), MapValues(Sort(b), Meaning);
    if |a| == |b| && forall i :: 0 <= i < |a| ==>
        Sort(a)[i].0 == Sort(b)[i].0 && Meaning(Sort(a)[i].1) == Meaning(Sort(b)[i].1) {
      assert sa == sb;
    }
    if sa == sb {
      forall i | 0 <= i < |a| ensures Sort(a)[i].0 == Sort(b)[i].0 && Meaning(Sort(a)[i].1) == Meaning(Sort(b)[i].1) {
        assert sa[i] == sb[i];
      }
    }
  }

  lemma SortedWellKeyed(entries: seq<(Text, Json)>, i: nat)
    requires WellKeyed(Obj(entries)) && i < |entries|
    ensures Sort(entries)[i] in entries && WellKeyed(Sort(entries)[i].1)
  {
    SortMembers(entries, Sort(entries)[i]);
    var j :| 0 <= j < |entries| && entries[j] == Sort(entries)[i];
  }

  // ---- what a canonical form looks like

  /**
   An object becomes an array with one [name, value] pair for each of its entries, the value in canonical form, in the
   order of the names.
   */
  lemma CanonicalOfObject(entries: seq<(Text, Json)>)
    requires UniqueKeys(entries)
    ensures var c := Canonical(Obj(entries));
            && c.Arr? && |c.items| == |entries|
            && (forall e :: e in entries ==> Arr([Str(e.0), Canonical(e.1)]) in c.items)
            && (forall i :: 0 <= i < |c.items| ==> IsPair(c.items[i]))
            && forall i, j :: 0 <= i < j < |c.items| ==> Precedes(c.items[i].items[0].text, c.items[j].items[0].text)
  {
    var sorted, c := Sort(entries), Canonical(Obj(entries));
    forall e | e in entries ensures Arr([Str(e.0), Canonical(e.1)]) in c.items {
      SortMembers(entries, e);
      var i :| 0 <= i < |sorted| && sorted[i] == e;
      assert c.items[i] == Arr([Str(e.0), Canonical(e.1)]);
    }
    SortAscends(entries);
    forall i, j | 0 <= i < j < |c.items| ensures Precedes(c.items[i].items[0].text, c.items[j].items[0].text) {
      LessIff(sorted[i].0, sorted[j].0);
    }
  }

  /** An array keeps its order, and everything else stays what it is. */
  lemma CanonicalOfOthers(v: Json)
    requires !v.Obj?
    ensures !v.Arr? ==> Canonical(v) == v
    ensures v.Arr? ==> && Canonical(v).Arr? && |Canonical(v).items| == |v.items|
                       && forall i :: 0 <= i < |v.items| ==> Canonical(v).items[i] == Canonical(v.items[i])
  {
  }

  // ---- key order does not matter

  /** Values that are equal as nested maps have one canonical form, whatever the order of names at any depth. */
  lemma {:induction false} SameMeaningSameCanonical(v: Json, w: Json)
    requires WellKeyed(v) && WellKeyed(w) && Meaning(v) == Meaning(w)
    ensures Canonical(v) == Canonical(w)
  {
    match v
    case Arr(items) =>
      forall i | 0 <= i < |items| ensures Canonical(items[i]) == Canonical(w.items[i]) {
        assert Meaning(v).trees[i] == Meaning(w).trees[i];
        SameMeaningSameCanonical(items[i], w.items[i]);
      }
    case Obj(entries) =>
      ObjectsMeanTheSame(entries, w.entries);
      forall i | 0 <= i < |entries| ensures Canonical(v).items[i] == Canonical(w).items[i] {
        SortedWellKeyed(entries, i);
        SortedWellKeyed(w.entries, i);
        SameMeaningSameCanonical(Sort(entries)[i].1, Sort(w.entries)[i].1);
      }
    case _ =>
  }

  // ---- idempotence

  ghost predicate ObjectFree(v: Json) {
    match v
    case Arr(items) => forall i :: 0 <= i < |items| ==> ObjectFree(items[i])
    case Obj(_) => false
    case _ => true
  }

  lemma {:induction false} CanonicalIsObjectFree(v: Json)
    ensures ObjectFree(Canonical(v))
  {
    match v
    case Arr(items) => forall i | 0 <= i < |items|
        ensures ObjectFree(Canonical(items[i])) { CanonicalIsObjectFree(items[i]); }
    case Obj(entries) =>
      var sorted := Sort(entries);
      forall i | 0 <= i < |sorted| ensures ObjectFree(Canonical(v).items[i]) {
        SortMembers(entries, sorted[i]);
        CanonicalIsObjectFree(sorted[i].1);
      }
    case _ =>
  }

  lemma {:induction false} CanonicalOfObjectFree(v: Json)
    requires ObjectFree(v)
    ensures Canonical(v) == v && WellKeyed(v)
  {
    match v
    case Arr(items) =>
      forall i | 0 <= i < |items| ensures Canonical(items[i]) == items[i] && WellKeyed(items[i]) {
        CanonicalOfObjectFree(items[i]);
      }
    case _ =>
  }

  lemma CanonicalIdempotent(v: Json)
    ensures Canonical(Canonical(v)) == Canonical(v)
  {
    CanonicalIsObjectFree(v);
    CanonicalOfObjectFree(Canonical(v));
  }

  // ---- when the canonical form determines the value

  ghost predicate IsPair(v: Json) {
    v.Arr? && |v.items| == 2 && v.items[0].Str?
  }

  /** An array that reads like the sorted entries of an object. */
  ghost predicate EntryLike(items: seq<Json>) {
    && (forall i :: 0 <= i < |items| ==> IsPair(items[i]))
    && (forall i, j :: 0 <= i < j < |items| ==> Less(items[i].items[0].text, items[j].items[0].text))
  }

  /** No array, at any depth, reads like an object's entries. */
  ghost predicate Plain(v: Json) {
    match v
    case Arr(items) => !EntryLike(items) && forall i :: 0 <= i < |items| ==> Plain(items[i])
    case Obj(entries) => forall i :: 0 <= i < |entries| ==> Plain(entries[i].1)
    case _ => true
  }

  ghost predicate ArrayFree(v: Json) {
    match v
    case Arr(_) => false
    case Obj(entries) => forall i :: 0 <= i < |entries| ==> ArrayFree(entries[i].1)
    case _ => true
  }

  lemma {:induction false} ArrayFreeIsPlain(v: Json)
    requires ArrayFree(v)
    ensures Plain(v)
  {
    if v.Obj? {
      forall i | 0 <= i < |v.entries| ensures Plain(v.entries[i].1) { ArrayFreeIsPlain(v.entries[i].1); }
    }
  }

  /** Only a pair becomes a pair. */
  lemma PairComesFromPair(v: Json)
    requires IsPair(Canonical(v))
    ensures IsPair(v) && v.items[0] == Canonical(v).items[0]
  {
    if v.Arr? { assert Canonical(v).items[0] == Canonical(v.items[0]); }
  }

  /** The canonical form of an object reads like entries. */
  lemma ObjectIsEntryLike(entries: seq<(Text, Json)>)
    requires UniqueKeys(entries)
    ensures EntryLike(Canonical(Obj(entries)).items)
  {
    SortAscends(entries);
  }

  /** An array whose canonical form reads like entries does so itself. */
  lemma EntryLikeComesFromEntryLike(items: seq<Json>)
    requires EntryLike(Canonical(Arr(items)).items)
    ensures EntryLike(items)
  {
    forall i | 0 <= i < |items| ensures IsPair(items[i])
        && items[i].items[0] == Canonical(Arr(items)).items[i].items[0] {
      assert Canonical(Arr(items)).items[i] == Canonical(items[i]);
      PairComesFromPair(items[i]);
    }
  }

  /** Plain values, array-free ones among them, with one canonical form are equal as nested maps. */
  lemma {:induction false} SameCanonicalSameMeaning(v: Json, w: Json)
    requires WellKeyed(v) && WellKeyed(w) && Plain(v) && Plain(w) && Canonical(v) == Canonical(w)
    ensures Meaning(v) == Meaning(w)
  {
    if v.Arr? && w.Arr? {
      forall i | 0 <= i < |v.items| ensures Meaning(v).trees[i] == Meaning(w).trees[i] {
        assert Canonical(v).items[i] == Canonical(w).items[i];
        SameCanonicalSameMeaning(v.items[i], w.items[i]);
      }
    } else if v.Obj? && w.Obj? {
      var a, b := v.entries, w.entries;
      forall i | 0 <= i < |a| ensures Sort(a)[i].0 == Sort(b)[i].0 && Meaning(Sort(a)[i].1) == Meaning(Sort(b)[i].1) {
        assert Canonical(v).items[i] == Canonical(w).items[i];
        SortedWellKeyed(a, i);
        SortedWellKeyed(b, i);
        SameCanonicalSameMeaning(Sort(a)[i].1, Sort(b)[i].1);
      }
      ObjectsMeanTheSame(a, b);
    } else if v.Obj? && w.Arr? {
      ObjectIsEntryLike(v.entries);
      EntryLikeComesFromEntryLike(w.items);
    } else if v.Arr? && w.Obj? {
      ObjectIsEntryLike(w.entries);
      EntryLikeComesFromEntryLike(v.items);
    }
  }

  /** For plain values: one canonical form exactly for values equal as nested maps. */
  lemma CanonicalIffSameMeaning(v: Json, w: Json)
    requires WellKeyed(v) && WellKeyed(w) && Plain(v) && Plain(w)
    ensures Canonical(v) == Canonical(w) <==> Meaning(v) == Meaning(w)
  {
    if Canonical(v) == Canonical(w) { SameCanonicalSameMeaning(v, w); }
    if Meaning(v) == Meaning(w) { SameMeaningSameCanonical(v, w); }
  }

  // ---- the values whose canonical form stands for them alone

  /** The objects back: every array that reads like entries becomes one. */
  ghost function Objectify(v: Json): Json {
    if !v.Arr? then v
    else if EntryLike(v.items) then
      Obj(seq(|v.items|, i requires 0 <= i < |v.items| =>
        assert IsPair(v.items[i]);
        (v.items[i].items[0].text, Objectify(v.items[i].items[1]))))
    else Arr(seq(|v.items|, i requires 0 <= i < |v.items| => Objectify(v.items[i])))
  }

  /** Every object-free value is the canonical form of its objects. */
  lemma {:induction false} CanonicalOfObjectify(v: Json)
    requires ObjectFree(v)
    ensures Canonical(Objectify(v)) == v && WellKeyed(Objectify(v))
  {
    if v.Arr? && EntryLike(v.items) {
      var o := Objectify(v);
      assert Ascending(o.entries);
      SortOfAscending(o.entries);
      AscendingIsUnique(o.entries);
      forall i | 0 <= i < |v.items| ensures Canonical(o).items[i] == v.items[i] && WellKeyed(o.entries[i].1) {
        assert IsPair(v.items[i]);
        CanonicalOfObjectify(v.items[i].items[1]);
        assert v.items[i].items == [v.items[i].items[0], v.items[i].items[1]];
      }
    } else if v.Arr? {
      forall i | 0 <= i < |v.items| ensures Canonical(Objectify(v)).items[i] == v.items[i]
          && WellKeyed(Objectify(v).items[i]) {
        CanonicalOfObjectify(v.items[i]);
      }
    }
  }

  lemma {:induction false} ObjectifyMakesObjects(v: Json)
    requires ObjectFree(v) && !Plain(v)
    ensures !ObjectFree(Objectify(v))
  {
    if !EntryLike(v.items) {
      var i :| 0 <= i < |v.items| && !Plain(v.items[i]);
      ObjectifyMakesObjects(v.items[i]);
      assert !ObjectFree(Objectify(v).items[i]);
    }
  }

  lemma {:induction false} SameMeaningSameObjects(v: Json, w: Json)
    requires Meaning(v) == Meaning(w) && ObjectFree(v)
    ensures ObjectFree(w)
  {
    if v.Arr? {
      forall i | 0 <= i < |w.items| ensures ObjectFree(w.items[i]) {
        assert Meaning(v).trees[i] == Meaning(w).trees[i];
        SameMeaningSameObjects(v.items[i], w.items[i]);
      }
    }
  }

  /** A plain canonical form has no object behind it. */
  lemma {:induction false} PlainComesFromObjectFree(w: Json)
    requires WellKeyed(w) && Plain(Canonical(w))
    ensures ObjectFree(w)
  {
    if w.Obj? {
      ObjectIsEntryLike(w.entries);
    } else if w.Arr? {
      forall i | 0 <= i < |w.items| ensures ObjectFree(w.items[i]) {
        assert Canonical(w).items[i] == Canonical(w.items[i]);
        PlainComesFromObjectFree(w.items[i]);
      }
    }
  }

  /** Only this value, up to the order of names, has its canonical form. */
  ghost predicate Determined(v: Json) {
    forall w :: WellKeyed(w) && Canonical(w) == Canonical(v) ==> Meaning(w) == Meaning(v)
  }

  /**
   Among all values, the canonical form stands for one alone exactly when it has no object and no array that reads
   like one.
   */
  lemma DeterminedIff(v: Json)
    requires WellKeyed(v)
    ensures Determined(v) <==> ObjectFree(v) && Plain(v)
  {
    if ObjectFree(v) && Plain(v) {
      forall w | WellKeyed(w) && Canonical(w) == Canonical(v) ensures Meaning(w) == Meaning(v) {
        CanonicalOfObjectFree(v);
        PlainComesFromObjectFree(w);
        CanonicalOfObjectFree(w);
      }
    }
    if Determined(v) {
      CanonicalIsObjectFree(v);
      CanonicalIdempotent(v);
      CanonicalOfObjectFree(Canonical(v));
      SameMeaningSameObjects(Canonical(v), v);
      CanonicalOfObjectFree(v);
      if !Plain(v) {
        CanonicalOfObjectify(v);
        ObjectifyMakesObjects(v);
        SameMeaningSameObjects(v, Objectify(v));
      }
    }
  }

  /** An object and the array of its entries are different values with one canonical form. */
  lemma ObjectAndItsEntries(name: Text, n: nat)
    ensures var o, a := Obj([(name, Number(n))]), Arr([Arr([Str(name), Number(n)])]);
            Canonical(o) == Canonical(a) && Meaning(o) != Meaning(a)
  {
    var o, a := Obj([(name, Number(n))]), Arr([Arr([Str(name), Number(n)])]);
    SortOfAscending(o.entries);
    assert ObjectFree(Arr([Str(name), Number(n)]));
    CanonicalOfObjectFree(a);
    assert Canonical(o).items == [Arr([Str(name), Canonical(Number(n))])];
  }

  // ---- requests

  datatype ApiRequest = ApiRequest(operation: Text, parameters: Json, projection: Option<Json>)

  function CanonicalParts(r: ApiRequest): Json {
    var parts := [Str(r.operation), Canonical(r.parameters)];
    Arr(if r.projection.Some? then parts + [Canonical(r.projection.value)] else parts)
  }

  /** `canonicalApiRequest`: the compact JSON text of the parts. */
  function CanonicalApiRequest(stringify: Json -> Text, r: ApiRequest): Text {
    stringify(CanonicalParts(r))
  }

  /** The parts: the operation, the parameters and, where there is one, the projection, in this order. */
  lemma PartsInOrder(r: ApiRequest)
    ensures CanonicalParts(r).Arr?
    ensures CanonicalParts(r).items
            == [Str(r.operation), Canonical(r.parameters)]
               + if r.projection.Some? then [Canonical(r.projection.value)] else []
  {
  }

  ghost predicate PlainRequest(r: ApiRequest) {
    && WellKeyed(r.parameters) && Plain(r.parameters)
    && (r.projection.Some? ==> WellKeyed(r.projection.value) && Plain(r.projection.value))
  }

  ghost predicate SameRequest(r: ApiRequest, s: ApiRequest) {
    && r.operation == s.operation && Meaning(r.parameters) == Meaning(s.parameters)
    && (r.projection.Some? <==> s.projection.Some?)
    && (r.projection.Some? && s.projection.Some? ==> Meaning(r.projection.value) == Meaning(s.projection.value))
  }

  lemma PartsAreObjectFree(r: ApiRequest)
    ensures ObjectFree(CanonicalParts(r))
  {
    CanonicalIsObjectFree(r.parameters);
    if r.projection.Some? { CanonicalIsObjectFree(r.projection.value); }
  }

  /** Two requests share a canonical text exactly when they are the same request up to the order of names. */
  lemma TextIffSameRequest(stringify: Json -> Text, r: ApiRequest, s: ApiRequest)
    requires forall v, w :: ObjectFree(v) && ObjectFree(w) && stringify(v) == stringify(w) ==> v == w
    requires PlainRequest(r) && PlainRequest(s)
    ensures CanonicalApiRequest(stringify, r) == CanonicalApiRequest(stringify, s) <==> SameRequest(r, s)
  {
    CanonicalIffSameMeaning(r.parameters, s.parameters);
    PartsAreObjectFree(r);
    PartsAreObjectFree(s);
    if r.projection.Some? && s.projection.Some? { CanonicalIffSameMeaning(r.projection.value, s.projection.value); }
    var p, q := CanonicalParts(r).items, CanonicalParts(s).items;
    assert p == q <==> |p| == |q| && p[0] == q[0] && p[1] == q[1] && (|p| == 3 ==> p[2] == q[2]);
  }
}
