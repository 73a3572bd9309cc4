/**
 Passthrough requests (src/sources.ts): the request as data, the compact JSON text that names it, and the parser that
 accepts exactly the texts the printer writes. JSON text is a parameter, `Codec`.
 */
module Passthrough {
  import opened Common
  import opened Entries
  import opened Canonical

  const SLASH := 0x2F
  const DOT := 0x2E
  const TILDE := 0x7E

  const PASSTHROUGH: Text := [0x70, 0x61, 0x73, 0x73, 0x74, 0x68, 0x72, 0x6F, 0x75, 0x67, 0x68]
  const GET: Text := [0x47, 0x45, 0x54]
  const POST: Text := [0x50, 0x4F, 0x53, 0x54]
  /** The prefix of the gateway's own parameters, x-airnode- */
  const AIRNODE: Text := [0x78, 0x2D, 0x61, 0x69, 0x72, 0x6E, 0x6F, 0x64, 0x65, 0x2D]

  datatype Request = Request(
    verb: Text, path: Text, query: Option<map<Text, Text>>, body: Option<Text>, projection: Option<map<Text, Text>>)

  /** Compact JSON text: printing and reading; what was printed of arrays and atoms is read back. */
  datatype Codec = Codec(stringify: Json -> Text, parse: Text -> Option<Json>) {
    ghost predicate Sound() {
      forall v :: ObjectFree(v) ==> parse(stringify(v)) == Some(v)
    }
  }

  // ---- characters

  predicate IsUnreserved(c: nat) {
    || 0x41 <= c <= 0x5A || 0x61 <= c <= 0x7A || 0x30 <= c <= 0x39
    || c == DOT || c == 0x5F || c == TILDE || c == 0x2D
  }

  predicate Unreserved(t: Text) {
    t != [] && forall i :: 0 <= i < |t| ==> IsUnreserved(t[i])
  }

  function Lower(c: nat): nat {
    if 0x41 <= c <= 0x5A then c + 0x20 else c
  }

  /** Whether a name belongs to the gateway. */
  predicate IsGateways(name: Text) {
    |name| >= |AIRNODE| && forall i :: 0 <= i < |AIRNODE| ==> Lower(name[i]) == AIRNODE[i]
  }

  /** A JSON Pointer: a slash, then text in which ~ is followed by 0 or 1. */
  predicate IsPointer(t: Text) {
    && t != [] && t[0] == SLASH
    && Escaped(t[1..])
  }

  predicate Escaped(t: Text) {
    if t == [] then true
    else if t[0] != TILDE then Escaped(t[1..])
    else |t| >= 2 && (t[1] == 0x30 || t[1] == 0x31) && Escaped(t[2..])
  }

  function Split(t: Text): (segments: seq<Text>)
    ensures segments != []
  {
    if t == [] then [[]]
    else
      var rest := Split(t[1..]);
      if t[0] == SLASH then [[]] + rest else [[t[0]] + rest[0]] + rest[1..]
  }

  /** Segments joined by slashes. */
  function JoinSlash(segments: seq<Text>): Text
    requires segments != []
  {
    if |segments| == 1 then segments[0] else segments[0] + [SLASH] + JoinSlash(segments[1..])
  }

  ghost predicate NoSlash(segments: seq<Text>) {
    forall i :: 0 <= i < |segments| ==> SLASH !in segments[i]
  }

  /** Splitting gives the segments whose join the text is, none with a slash. */
  lemma {:induction false} SplitJoins(t: Text)
    ensures JoinSlash(Split(t)) == t && NoSlash(Split(t))
  {
    if t != [] {
      SplitJoins(t[1..]);
      var rest := Split(t[1..]);
      var all := Split(t);
      assert all[1..] == if t[0] == SLASH then rest else rest[1..];
      assert forall i :: 0 < i < |all| ==> all[i] == if t[0] == SLASH then rest[i - 1] else rest[i];
      assert t == [t[0]] + t[1..];
      if t[0] != SLASH && |rest| > 1 {
        assert all[0] + [SLASH] + JoinSlash(rest[1..]) == [t[0]] + (rest[0] + [SLASH] + JoinSlash(rest[1..]));
      }
    }
  }

  lemma {:induction false} SplitPrepends(a: Text, t: Text)
    requires SLASH !in a
    ensures Split(a + t) == [a + Split(t)[0]] + Split(t)[1..]
  {
    if a == [] {
      assert a + t == t && a + Split(t)[0] == Split(t)[0];
    } else {
      SplitPrepends(a[1..], t);
      assert (a + t)[1..] == a[1..] + t;
      assert a + Split(t)[0] == [a[0]] + (a[1..] + Split(t)[0]);
    }
  }

  /** And only those: segments without a slash are what their join splits into. */
  lemma {:induction false} SplitOfJoin(segments: seq<Text>)
    requires segments != [] && NoSlash(segments)
    ensures Split(JoinSlash(segments)) == segments
  {
    if |segments| == 1 {
      SplitPrepends(segments[0], []);
      assert segments[0] + [] == segments[0];
    } else {
      var rest := JoinSlash(segments[1..]);
      SplitOfJoin(segments[1..]);
      SplitPrepends(segments[0], [SLASH] + rest);
      assert ([SLASH] + rest)[1..] == rest;
      assert JoinSlash(segments) == segments[0] + ([SLASH] + rest);
      assert segments[0] + [] == segments[0];
    }
  }

  predicate IsSegment(t: Text) {
    Unreserved(t) && t != [DOT] && t != [DOT, DOT]
  }

  predicate IsPath(t: Text) {
    && t != [] && t[0] == SLASH
    && forall i :: 0 <= i < |Split(t[1..])| ==> IsSegment(Split(t[1..])[i])
  }

  /** A path is a slash and one or more segments of unreserved characters, other than . and .., joined by slashes. */
  lemma PathIffSegments(t: Text)
    ensures IsPath(t) <==>
            exists segments :: segments != [] && t == [SLASH] + JoinSlash(segments)
                               && forall i :: 0 <= i < |segments| ==> IsSegment(segments[i])
  {
    if IsPath(t) {
      SplitJoins(t[1..]);
      assert t == [SLASH] + JoinSlash(Split(t[1..]));
    }
    forall segments: seq<Text> | segments != [] && t == [SLASH] + JoinSlash(segments)
                                 && forall i :: 0 <= i < |segments| ==> IsSegment(segments[i])
      ensures IsPath(t)
    {
      SplitOfJoin(segments);
      assert t[1..] == JoinSlash(segments);
    }
  }

  /** A ~ here is followed by 0 or 1. */
  ghost predicate Followed(t: Text, i: nat) {
    i < |t| && t[i] == TILDE ==> i + 1 < |t| && (t[i + 1] == 0x30 || t[i + 1] == 0x31)
  }

  /**
   The expression for pointers, which reads ~0 and ~1 as one, takes exactly the texts in which every ~ is followed so.
   */
  lemma {:induction false} EscapedIff(t: Text)
    ensures Escaped(t) <==> forall i: nat :: Followed(t, i)
  {
    assert Followed(t, 0) || !Escaped(t);
    if t == [] {
    } else if t[0] != TILDE {
      EscapedIff(t[1..]);
      EscapedBehind(t, 1);
    } else if |t| >= 2 && (t[1] == 0x30 || t[1] == 0x31) {
      EscapedIff(t[2..]);
      EscapedBehind(t, 2);
    }
  }

  lemma EscapedBehind(t: Text, n: nat)
    requires n <= |t|
    ensures (forall i: nat :: Followed(t[n..], i)) <==> forall i: nat :: n <= i ==> Followed(t, i)
  {
    if forall i: nat :: Followed(t[n..], i) {
      forall i: nat | n <= i ensures Followed(t, i) { assert Followed(t[n..], i - n); }
    }
    if forall i: nat :: n <= i ==> Followed(t, i) {
      forall i: nat ensures Followed(t[n..], i) { assert Followed(t, i + n); }
    }
  }

  // ---- entries

  /** The entries of an object in order of their names. */
  ghost function SortedEntries(m: map<Text, Text>): (es: seq<(Text, Text)>)
    decreases |m|
  {
    if m == map[] then []
    else
      var k :| k in m;
      Insert((k, m[k]), SortedEntries(m - {k}))
  }

  lemma {:induction false} SortedEntriesHold(m: map<Text, Text>, x: (Text, Text))
    ensures x in SortedEntries(m) <==> x.0 in m && m[x.0] == x.1
    decreases |m|
  {
    if m != map[] {
      var k :| k in m && SortedEntries(m) == Insert((k, m[k]), SortedEntries(m - {k}));
      SortedEntriesHold(m - {k}, x);
      InsertMembers((k, m[k]), SortedEntries(m - {k}), x);
    }
  }

  lemma {:induction false} SortedEntriesAscend(m: map<Text, Text>)
    ensures Ascending(SortedEntries(m))
    decreases |m|
  {
    if m != map[] {
      var k :| k in m && SortedEntries(m) == Insert((k, m[k]), SortedEntries(m - {k}));
      var rest := SortedEntries(m - {k});
      SortedEntriesAscend(m - {k});
      forall i | 0 <= i < |rest| ensures rest[i].0 != k { SortedEntriesHold(m - {k}, rest[i]); }
      InsertAscends((k, m[k]), rest);
    }
  }

  /** Sorting an object's entries and making an object of ascending entries are inverse. */
  lemma ObjectOfSortedEntries(m: map<Text, Text>)
    ensures AsMap(SortedEntries(m)) == m
  {
    var es := SortedEntries(m);
    SortedEntriesAscend(m);
    AscendingIsUnique(es);
    forall name ensures name in AsMap(es) <==> name in m {
      if name in AsMap(es) { AsMapHolds(es, name, AsMap(es)[name]); SortedEntriesHold(m, (name, AsMap(es)[name])); }
      if name in m { SortedEntriesHold(m, (name, m[name])); AsMapHolds(es, name, m[name]); }
    }
    forall name | name in m ensures AsMap(es)[name] == m[name] {
      SortedEntriesHold(m, (name, m[name]));
      AsMapHolds(es, name, m[name]);
    }
  }

  lemma SortedEntriesOfObject(es: seq<(Text, Text)>)
    requires Ascending(es)
    ensures SortedEntries(AsMap(es)) == es
  {
    var m := AsMap(es);
    AscendingIsUnique(es);
    SortedEntriesAscend(m);
    forall x: (Text, Text) ensures x in SortedEntries(m) <==> x in es {
      SortedEntriesHold(m, x);
      AsMapHolds(es, x.0, x.1);
      assert x == (x.0, x.1);
    }
    AscendingUnique(SortedEntries(m), es);
  }

  /** Entries as the JSON array of [name, value] pairs. */
  function Pairs(es: seq<(Text, Text)>): Json {
    Arr(seq(|es|, i requires 0 <= i < |es| => Arr([Str(es[i].0), Str(es[i].1)])))
  }

  predicate IsEntry(v: Json) {
    v.Arr? && |v.items| == 2 && v.items[0].Str? && v.items[1].Str? && Unreserved(v.items[0].text)
  }

  /** The pairs of an array in which every item is an entry and each name is after the one before. */
  function EntriesOf(v: Json): (es: Option<seq<(Text, Text)>>) {
    if !v.Arr? || !(forall i :: 0 <= i < |v.items| ==> IsEntry(v.items[i])) then None
    else if !(forall i :: 0 < i < |v.items| ==> Less(v.items[i - 1].items[0].text, v.items[i].items[0].text)) then None
    else Some(seq(|v.items|, i requires 0 <= i < |v.items| => (v.items[i].items[0].text, v.items[i].items[1].text)))
  }

  ghost predicate GoodNames(es: seq<(Text, Text)>) {
    Ascending(es) && forall i :: 0 <= i < |es| ==> Unreserved(es[i].0)
  }

  lemma {:induction false} StepwiseAscends(es: seq<(Text, Text)>, i: nat, j: nat)
    requires forall k :: 0 < k < |es| ==> Less(es[k - 1].0, es[k].0)
    requires i < j < |es|
    ensures Less(es[i].0, es[j].0)
  {
    if i + 1 < j {
      StepwiseAscends(es, i, j - 1);
      LessTransitive(es[i].0, es[j - 1].0, es[j].0);
    }
  }

  /** The arrays that are read are exactly the pairs of ascending entries with unreserved names. */
  lemma EntriesIffPairs(v: Json, es: seq<(Text, Text)>)
    ensures EntriesOf(v) == Some(es) <==> v == Pairs(es) && GoodNames(es)
  {
    if EntriesOf(v) == Some(es) {
      forall i | 0 <= i < |es| ensures v.items[i] == Pairs(es).items[i] && Unreserved(es[i].0) {
        assert IsEntry(v.items[i]);
        assert v.items[i].items == [v.items[i].items[0], v.items[i].items[1]];
      }
      forall k | 0 < k < |es| ensures Less(es[k - 1].0, es[k].0) {
        assert es[k - 1].0 == v.items[k - 1].items[0].text;
      }
      forall i, j | 0 <= i < j < |es| ensures Less(es[i].0, es[j].0) { StepwiseAscends(es, i, j); }
    }
    if v == Pairs(es) && GoodNames(es) {
      forall i | 0 <= i < |es| ensures IsEntry(v.items[i]) { assert Unreserved(es[i].0); }
      assert forall i :: 0 < i < |es| ==> Less(v.items[i - 1].items[0].text, v.items[i].items[0].text);
      assert EntriesOf(v).value == es;
    }
  }

  lemma PairsObjectFree(es: seq<(Text, Text)>)
    ensures ObjectFree(Pairs(es))
  {
  }

  // ---- parsing and printing

  ghost predicate EachEntry(es: seq<(Text, Text)>, p: (Text, Text) -> bool) {
    forall i :: 0 <= i < |es| ==> p(es[i].0, es[i].1)
  }

  ghost predicate EachField(m: map<Text, Text>, p: (Text, Text) -> bool) {
    forall name :: name in m ==> p(name, m[name])
  }

  predicate MayQuery(name: Text, value: Text) {
    !IsGateways(name)
  }

  predicate MayProject(alias: Text, pointer: Text) {
    IsPointer(pointer)
  }

  predicate MayName(name: Text, value: Text) {
    Unreserved(name)
  }

  /** What holds of every entry holds of every field. */
  lemma EntriesAreFields(m: map<Text, Text>, p: (Text, Text) -> bool)
    ensures EachEntry(SortedEntries(m), p) <==> EachField(m, p)
  {
    var es := SortedEntries(m);
    if EachEntry(es, p) {
      forall name | name in m ensures p(name, m[name]) {
        SortedEntriesHold(m, (name, m[name]));
        var i :| 0 <= i < |es| && es[i] == (name, m[name]);
        assert p(es[i].0, es[i].1);
      }
    }
    if EachField(m, p) {
      forall i | 0 <= i < |es| ensures p(es[i].0, es[i].1) {
        SortedEntriesHold(m, es[i]);
        assert p(es[i].0, m[es[i].0]);
      }
    }
  }

  /** What the parts of a text must be. */
  ghost predicate ValidParts(k: Codec, verb: Text, path: Text, query: seq<(Text, Text)>, body: Text) {
    && (verb == GET || verb == POST) && IsPath(path)
    && EachEntry(query, MayQuery)
    && (verb == GET ==> body == []) && (verb == POST ==> k.parse(body).Some?)
  }

  ghost predicate ValidProjection(projection: seq<(Text, Text)>) {
    projection != [] && EachEntry(projection, MayProject)
  }

  /** The request of parts; an empty query and an empty body are left out. */
  function RequestOf(verb: Text, path: Text, query: seq<(Text, Text)>, body: Text,
      projection: Option<seq<(Text, Text)>>): Request {
    Request(verb, path, if query == [] then None else Some(AsMap(query)), if body == [] then None else Some(body),
            if projection.None? then None else Some(AsMap(projection.value)))
  }

  /** The request of the parsed parts of a text, none where a rule is broken. */
  ghost function RequestOfParts(k: Codec, parts: seq<Json>): Option<Request> {
    if (|parts| != 5 && |parts| != 6) || parts[0] != Str(PASSTHROUGH) then None
    else if !parts[1].Str? || !parts[2].Str? || EntriesOf(parts[3]).None? || !parts[4].Str? then None
    else
      var query := EntriesOf(parts[3]).value;
      if !ValidParts(k, parts[1].text, parts[2].text, query, parts[4].text) then None
      else if |parts| == 5 then Some(RequestOf(parts[1].text, parts[2].text, query, parts[4].text, None))
      else if EntriesOf(parts[5]).None? || !ValidProjection(EntriesOf(parts[5]).value) then None
      else Some(RequestOf(parts[1].text, parts[2].text, query, parts[4].text, EntriesOf(parts[5])))
  }

  /** `parsePassthroughRequest`: the request a text describes, none where it throws. */
  ghost function Parse(k: Codec, text: Text): Option<Request> {
    var v := k.parse(text);
    if v.None? || !v.value.Arr? || k.stringify(v.value) != text then None
    else RequestOfParts(k, v.value.items)
  }

  function OrEmpty(m: Option<map<Text, Text>>): map<Text, Text> {
    if m.None? then map[] else m.value
  }

  function BodyOf(r: Request): Text {
    if r.body.None? then [] else r.body.value
  }

  /** The JSON array of a request's parts. */
  function Parts(verb: Text, path: Text, query: seq<(Text, Text)>, body: Text,
      projection: Option<seq<(Text, Text)>>): seq<Json> {
    var parts := [Str(PASSTHROUGH), Str(verb), Str(path), Pairs(query), Str(body)];
    if projection.None? then parts else parts + [Pairs(projection.value)]
  }

  ghost function ProjectionEntries(r: Request): Option<seq<(Text, Text)>> {
    if r.projection.None? then None else Some(SortedEntries(r.projection.value))
  }

  ghost function PartsOf(r: Request): seq<Json> {
    Parts(r.verb, r.path, SortedEntries(OrEmpty(r.query)), BodyOf(r), ProjectionEntries(r))
  }

  /** `canonicalPassthroughRequest`: the text of a request, none where the parser does not take it. */
  ghost function Print(k: Codec, r: Request): Option<Text> {
    var text := k.stringify(Arr(PartsOf(r)));
    if Parse(k, text).None? then None else Some(text)
  }

  /** A request without an empty query or body. */
  function Trimmed(r: Request): Request {
    r.(query := if r.query == Some(map[]) then None else r.query, body := if r.body == Some([]) then None else r.body)
  }

  lemma PartsObjectFree(r: Request)
    ensures ObjectFree(Arr(PartsOf(r)))
  {
    PairsObjectFree(SortedEntries(OrEmpty(r.query)));
    if r.projection.Some? { PairsObjectFree(SortedEntries(r.projection.value)); }
    assert forall t :: ObjectFree(Str(t));
  }

  /** What a request must be to be printed: stated on the request itself. */
  ghost predicate Valid(k: Codec, r: Request) {
    && (r.verb == GET || r.verb == POST) && IsPath(r.path)
    && EachField(OrEmpty(r.query), MayName) && EachField(OrEmpty(r.query), MayQuery)
    && (r.verb == GET ==> BodyOf(r) == []) && (r.verb == POST ==> k.parse(BodyOf(r)).Some?)
    && (r.projection.Some? ==>
          && r.projection.value != map[]
          && EachField(r.projection.value, MayName) && EachField(r.projection.value, MayProject))
  }

  lemma EmptyIff(m: map<Text, Text>)
    ensures SortedEntries(m) == [] <==> m == map[]
  {
    if m != map[] {
      var name :| name in m;
      SortedEntriesHold(m, (name, m[name]));
    }
  }

  /** Entries read back from an object's pairs: all of them, if their names are good. */
  lemma EntriesOfPairs(m: map<Text, Text>)
    ensures EntriesOf(Pairs(SortedEntries(m))) == if EachField(m, MayName) then Some(SortedEntries(m)) else None
  {
    var es := SortedEntries(m);
    SortedEntriesAscend(m);
    EntriesAreFields(m, MayName);
    assert GoodNames(es) <==> EachEntry(es, MayName);
    EntriesIffPairs(Pairs(es), es);
    if EntriesOf(Pairs(es)).Some? {
      EntriesIffPairs(Pairs(es), EntriesOf(Pairs(es)).value);
      PairsInjective(es, EntriesOf(Pairs(es)).value);
    }
  }

  lemma PairsInjective(es: seq<(Text, Text)>, fs: seq<(Text, Text)>)
    requires Pairs(es) == Pairs(fs)
    ensures es == fs
  {
    assert |Pairs(es).items| == |Pairs(fs).items|;
    forall i | 0 <= i < |es| ensures es[i] == fs[i] {
      assert Pairs(es).items[i] == Pairs(fs).items[i];
    }
  }

  /** What reading back an object's pairs and making an object of them gives. */
  ghost predicate ReadsBack(m: map<Text, Text>, es: seq<(Text, Text)>) {
    && EntriesOf(Pairs(es)) == (if EachField(m, MayName) then Some(es) else None)
    && AsMap(es) == m && (es == [] <==> m == map[])
    && (EachEntry(es, MayQuery) <==> EachField(m, MayQuery))
    && (EachEntry(es, MayProject) <==> EachField(m, MayProject))
  }

  lemma SortedEntriesReadBack(m: map<Text, Text>)
    ensures ReadsBack(m, SortedEntries(m))
  {
    EntriesOfPairs(m);
    ObjectOfSortedEntries(m);
    EmptyIff(m);
    EntriesAreFields(m, MayQuery);
    EntriesAreFields(m, MayProject);
  }

  /** What the parser makes of parts, from what it makes of their entries. */
  lemma PartsRead(k: Codec, verb: Text, path: Text, query: seq<(Text, Text)>, body: Text,
      projection: Option<seq<(Text, Text)>>)
    requires EntriesOf(Pairs(query)).Some? ==> EntriesOf(Pairs(query)).value == query
    requires projection.Some? && EntriesOf(Pairs(projection.value)).Some? ==>
             EntriesOf(Pairs(projection.value)).value == projection.value
    ensures RequestOfParts(k, Parts(verb, path, query, body, projection)) ==
            if && EntriesOf(Pairs(query)).Some? && ValidParts(k, verb, path, query, body)
               && (projection.Some? ==> EntriesOf(Pairs(projection.value)).Some? && ValidProjection(projection.value))
            then Some(RequestOf(verb, path, query, body, projection)) else None
  {
    var parts := Parts(verb, path, query, body, projection);
    assert parts[3] == Pairs(query);
    assert projection.Some? ==> parts[5] == Pairs(projection.value);
  }

  /** Made of its own parts, a request loses what is empty. */
  lemma RequestOfOwnParts(r: Request)
    ensures RequestOf(r.verb, r.path, SortedEntries(OrEmpty(r.query)), BodyOf(r), ProjectionEntries(r)) == Trimmed(r)
  {
    ObjectOfSortedEntries(OrEmpty(r.query));
    EmptyIff(OrEmpty(r.query));
    if r.projection.Some? { ObjectOfSortedEntries(r.projection.value); }
  }

  /** The parser's rules on a request's entries are the rules on its fields. */
  lemma ValidOnEntries(k: Codec, r: Request)
    ensures var query, projection := SortedEntries(OrEmpty(r.query)), ProjectionEntries(r);
            Valid(k, r) <==>
            && EntriesOf(Pairs(query)).Some? && ValidParts(k, r.verb, r.path, query, BodyOf(r))
            && (projection.Some? ==> EntriesOf(Pairs(projection.value)).Some? && ValidProjection(projection.value))
  {
    SortedEntriesReadBack(OrEmpty(r.query));
    if r.projection.Some? { SortedEntriesReadBack(r.projection.value); }
  }

  /** What the parser makes of the parts of a request: the request without what is empty, if it is valid. */
  lemma PartsReadBack(k: Codec, r: Request)
    ensures RequestOfParts(k, PartsOf(r)) == if Valid(k, r) then Some(Trimmed(r)) else None
  {
    EntriesOfPairs(OrEmpty(r.query));
    if r.projection.Some? { EntriesOfPairs(r.projection.value); }
    ValidOnEntries(k, r);
    RequestOfOwnParts(r);
    PartsRead(k, r.verb, r.path, SortedEntries(OrEmpty(r.query)), BodyOf(r), ProjectionEntries(r));
  }

  lemma ParseOfText(k: Codec, r: Request)
    requires k.Sound()
    ensures Parse(k, k.stringify(Arr(PartsOf(r)))) == if Valid(k, r) then Some(Trimmed(r)) else None
  {
    PartsObjectFree(r);
    PartsReadBack(k, r);
  }

  /** A request prints exactly when it is valid, and its text parses back to it, without an empty query or body. */
  lemma PrintedParsesBack(k: Codec, r: Request)
    requires k.Sound()
    ensures Print(k, r).Some? <==> Valid(k, r)
    ensures Print(k, r).Some? ==> Parse(k, Print(k, r).value) == Some(Trimmed(r))
  {
    ParseOfText(k, r);
  }

  /** The parts a request is made of are the parts that are printed of it. */
  lemma PartsOfRequestOf(verb: Text, path: Text, query: seq<(Text, Text)>, body: Text,
      projection: Option<seq<(Text, Text)>>)
    requires Ascending(query) && (projection.Some? ==> Ascending(projection.value))
    ensures PartsOf(RequestOf(verb, path, query, body, projection)) == Parts(verb, path, query, body, projection)
  {
    SortedEntriesOfObject(query);
    if projection.Some? { SortedEntriesOfObject(projection.value); }
  }

  /** Five parts the parser takes. */
  lemma FivePartsAre(parts: seq<Json>)
    requires |parts| == 5 && parts[0] == Str(PASSTHROUGH) && parts[1].Str? && parts[2].Str? && parts[4].Str?
    requires EntriesOf(parts[3]).Some?
    ensures Ascending(EntriesOf(parts[3]).value)
    ensures parts == Parts(parts[1].text, parts[2].text, EntriesOf(parts[3]).value, parts[4].text, None)
  {
    EntriesIffPairs(parts[3], EntriesOf(parts[3]).value);
  }

  lemma SixPartsAre(parts: seq<Json>)
    requires |parts| == 6 && parts[0] == Str(PASSTHROUGH) && parts[1].Str? && parts[2].Str? && parts[4].Str?
    requires EntriesOf(parts[3]).Some?
    requires EntriesOf(parts[5]).Some?
    ensures Ascending(EntriesOf(parts[3]).value) && Ascending(EntriesOf(parts[5]).value)
    ensures parts == Parts(parts[1].text, parts[2].text, EntriesOf(parts[3]).value, parts[4].text, EntriesOf(parts[5]))
  {
    FivePartsAre(parts[..5]);
    EntriesIffPairs(parts[5], EntriesOf(parts[5]).value);
    assert parts == parts[..5] + [parts[5]];
  }

  /** The parts a text was parsed from are the parts of the request it describes. */
  lemma PartsOfRequest(k: Codec, parts: seq<Json>)
    requires RequestOfParts(k, parts).Some?
    ensures PartsOf(RequestOfParts(k, parts).value) == parts
  {
    var query := EntriesOf(parts[3]).value;
    if |parts| == 5 {
      FivePartsAre(parts);
      PartsOfRequestOf(parts[1].text, parts[2].text, query, parts[4].text, None);
    } else {
      SixPartsAre(parts);
      PartsOfRequestOf(parts[1].text, parts[2].text, query, parts[4].text, EntriesOf(parts[5]));
    }
  }

  /** Every text the parser accepts is reproduced exactly by printing the request it describes. */
  lemma ParsedIsReproduced(k: Codec, text: Text)
    requires Parse(k, text).Some?
    ensures Print(k, Parse(k, text).value) == Some(text)
  {
    PartsOfRequest(k, k.parse(text).value.items);
  }

  // ---- the code

  /** `sortedEntries`, from the object's fields in any order. */
  method SortFields(m: map<Text, Text>) returns (es: seq<(Text, Text)>)
    ensures es == SortedEntries(m)
  {
    var names := m.Keys;
    es := [];
    while names != {}
      invariant names <= m.Keys && Ascending(es)
      invariant forall x: (Text, Text) :: x in es <==> x.0 in m && x.0 !in names && m[x.0] == x.1
      decreases |names|
    {
      var name: Text :| name in names;
      forall i | 0 <= i < |es| ensures es[i].0 != name { assert es[i] in es; }
      InsertAscends((name, m[name]), es);
      forall x: (Text, Text) ensures x in Insert((name, m[name]), es) <==> x == (name, m[name]) || x in es {
        InsertMembers((name, m[name]), es, x);
      }
      es, names := Insert((name, m[name]), es), names - {name};
    }
    SortedEntriesAscend(m);
    forall x: (Text, Text) ensures x in es <==> x in SortedEntries(m) { SortedEntriesHold(m, x); }
    AscendingUnique(es, SortedEntries(m));
  }

  /** `passthroughEntries`: the entries of an array of pairs, checked one after the other. */
  method ReadEntries(v: Json) returns (es: Option<seq<(Text, Text)>>)
    ensures es == EntriesOf(v)
  {
    if !v.Arr? { return None; }
    var read: seq<(Text, Text)> := [];
    for i := 0 to |v.items|
      invariant |read| == i && forall j :: 0 <= j < i ==> IsEntry(v.items[j])
      invariant forall j :: 0 <= j < i ==> read[j] == (v.items[j].items[0].text, v.items[j].items[1].text)
      invariant forall j :: 0 < j < i ==> Less(v.items[j - 1].items[0].text, v.items[j].items[0].text)
    {
      var entry := v.items[i];
      if !IsEntry(entry) { return None; }
      if i > 0 && !Less(read[i - 1].0, entry.items[0].text) { return None; }
      read := read + [(entry.items[0].text, entry.items[1].text)];
    }
    assert EntriesOf(v).Some? && read == EntriesOf(v).value;
    es := Some(read);
  }

  /** The checks and the object that `parsePassthroughRequest` makes of parsed parts. */
  method ReadParts(k: Codec, parts: seq<Json>) returns (r: Option<Request>)
    ensures r == RequestOfParts(k, parts)
  {
    if (|parts| != 5 && |parts| != 6) || parts[0] != Str(PASSTHROUGH) { return None; }
    if !parts[1].Str? || !parts[2].Str? || !parts[4].Str? { return None; }
    var verb, path, body := parts[1].text, parts[2].text, parts[4].text;
    var query := ReadEntries(parts[3]);
    if query.None? { return None; }
    if (verb != GET && verb != POST) || !IsPath(path) { return None; }
    if exists i :: 0 <= i < |query.value| && IsGateways(query.value[i].0) { return None; }
    if (verb == GET && body != []) || (verb == POST && k.parse(body).None?) { return None; }
    assert EachEntry(query.value, MayQuery);
    var request := Request(verb, path, None, None, None);
    if query.value != [] { request := request.(query := Some(AsMap(query.value))); }
    if body != [] { request := request.(body := Some(body)); }
    if |parts| == 6 {
      var projection := ReadEntries(parts[5]);
      if projection.None? || projection.value == [] { return None; }
      if exists i :: 0 <= i < |projection.value| && !IsPointer(projection.value[i].1) { return None; }
      assert EachEntry(projection.value, MayProject);
      request := request.(projection := Some(AsMap(projection.value)));
    }
    r := Some(request);
  }

  method ParsePassthroughRequest(k: Codec, text: Text) returns (r: Option<Request>)
    ensures r == Parse(k, text)
  {
    var v := k.parse(text);
    if v.None? || !v.value.Arr? || k.stringify(v.value) != text { return None; }
    r := ReadParts(k, v.value.items);
  }

  method CanonicalPassthroughRequest(k: Codec, r: Request) returns (text: Option<Text>)
    ensures text == Print(k, r)
  {
    var query := SortFields(OrEmpty(r.query));
    var parts := [Str(PASSTHROUGH), Str(r.verb), Str(r.path), Pairs(query), Str(BodyOf(r))];
    if r.projection.Some? {
      var projection := SortFields(r.projection.value);
      parts := parts + [Pairs(projection)];
    }
    var written := k.stringify(Arr(parts));
    var parsed := ParsePassthroughRequest(k, written);
    text := if parsed.Some? then Some(written) else None;
  }
}
