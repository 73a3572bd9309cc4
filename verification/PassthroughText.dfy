/**
 The texts of passthrough requests (src/sources.ts), character by character: which parts are written and in which order,
 and which paths, names and pointers are taken.
 */
module PassthroughText {
  import opened Entries
  import opened Canonical
  import opened Passthrough

  /** The characters of names and path segments. */
  ghost predicate PlainCharacter(c: nat) {
    || (0x30 <= c <= 0x39) || (0x41 <= c <= 0x5A) || (0x61 <= c <= 0x7A)
    || c == '-' as nat || c == '.' as nat || c == '_' as nat || c == '~' as nat
  }

  ghost predicate PlainText(t: Text) {
    t != [] && forall i :: 0 <= i < |t| ==> PlainCharacter(t[i])
  }

  /** Entries as pairs, each object's entry once and in the order of the names. */
  ghost predicate Lists(v: Json, m: map<Text, Text>) {
    && v.Arr?
    && (forall i :: 0 <= i < |v.items| ==>
          && v.items[i].Arr? && |v.items[i].items| == 2 && v.items[i].items[0].Str? && v.items[i].items[1].Str?)
    && (forall i :: 0 <= i < |v.items| ==>
          v.items[i].items[0].text in m && m[v.items[i].items[0].text] == v.items[i].items[1].text)
    && (forall name :: name in m ==> Arr([Str(name), Str(m[name])]) in v.items)
    && forall i, j :: 0 <= i < j < |v.items| ==> Precedes(v.items[i].items[0].text, v.items[j].items[0].text)
  }

  lemma PairsList(m: map<Text, Text>)
    ensures Lists(Pairs(SortedEntries(m)), m)
  {
    var es := SortedEntries(m);
    forall i | 0 <= i < |es| ensures es[i].0 in m && m[es[i].0] == es[i].1 {
      SortedEntriesHold(m, es[i]);
    }
    forall name | name in m ensures Arr([Str(name), Str(m[name])]) in Pairs(es).items {
      SortedEntriesHold(m, (name, m[name]));
      var i :| 0 <= i < |es| && es[i] == (name, m[name]);
      assert Pairs(es).items[i] == Arr([Str(name), Str(m[name])]);
    }
    SortedEntriesAscend(m);
    forall i, j | 0 <= i < j < |es| ensures Precedes(es[i].0, es[j].0) {
      LessIff(es[i].0, es[j].0);
    }
  }

  /** The word passthrough, method, path, query, body and the projection. */
  ghost predicate PartsSay(parts: seq<Json>, r: Request) {
    && |parts| == (if r.projection.None? then 5 else 6)
    && parts[0] == Str(Codes("passthrough")) && parts[1] == Str(r.verb) && parts[2] == Str(r.path)
    && Lists(parts[3], if r.query.None? then map[] else r.query.value)
    && parts[4] == Str(if r.body.None? then [] else r.body.value)
    && (r.projection.Some? ==> Lists(parts[5], r.projection.value))
  }

  lemma FirstWord()
    ensures PASSTHROUGH == Codes("passthrough")
  {
  }

  lemma FivePartsSay(r: Request)
    requires r.projection.None?
    ensures PartsSay(PartsOf(r), r)
  {
    FirstWord();
    PairsList(OrEmpty(r.query));
  }

  lemma SixPartsSay(r: Request)
    requires r.projection.Some?
    ensures PartsSay(PartsOf(r), r)
  {
    FirstWord();
    PairsList(OrEmpty(r.query));
    PairsList(r.projection.value);
  }

  /** The text of a request is that of the array of its parts. */
  lemma PrintedText(k: Codec, r: Request) returns (parts: seq<Json>)
    requires Print(k, r).Some?
    ensures Print(k, r).value == k.stringify(Arr(parts)) && PartsSay(parts, r)
  {
    parts := PartsOf(r);
    if r.projection.None? { FivePartsSay(r); } else { SixPartsSay(r); }
  }

  /** Text without a slash between slashes, none of it empty, a dot or two dots. */
  ghost predicate PlainPath(t: Text) {
    exists segments: seq<Text> ::
      && segments != [] && t == ['/' as nat] + JoinSlash(segments)
      && forall i :: 0 <= i < |segments| ==>
           PlainText(segments[i]) && segments[i] != Codes(".") && segments[i] != Codes("..")
  }

  lemma PathIsPlain(t: Text)
    ensures IsPath(t) <==> PlainPath(t)
  {
    PathIffSegments(t);
    assert Codes(".") == [DOT] && Codes("..") == [DOT, DOT] && SLASH == '/' as nat;
    forall c ensures IsUnreserved(c) <==> PlainCharacter(c) {
    }
    forall s: Text ensures IsSegment(s) <==> PlainText(s) && s != Codes(".") && s != Codes("..") {
    }
  }

  /** A name that begins with x-airnode-, in letters of either case. */
  ghost predicate BeginsGateway(name: Text) {
    var prefix, upper := Codes("x-airnode-"), Codes("X-AIRNODE-");
    |name| >= 10 && forall i :: 0 <= i < 10 ==> name[i] == prefix[i] || name[i] == upper[i]
  }

  /** A slash, and no ~ that is not followed by 0 or 1. */
  ghost predicate PlainPointer(t: Text) {
    && t != [] && t[0] == '/' as nat
    && forall i :: 0 < i < |t| && t[i] == '~' as nat ==>
         i + 1 < |t| && (t[i + 1] == '0' as nat || t[i + 1] == '1' as nat)
  }

  lemma PointerIsPlain(t: Text)
    ensures IsPointer(t) <==> PlainPointer(t)
  {
    if t != [] {
      EscapedIff(t[1..]);
      if PlainPointer(t) {
        forall i: nat ensures Followed(t[1..], i) {
          if i < |t| - 1 { assert t[1..][i] == t[i + 1]; }
        }
      }
      if IsPointer(t) {
        forall i | 0 < i < |t| && t[i] == '~' as nat
          ensures i + 1 < |t| && (t[i + 1] == '0' as nat || t[i + 1] == '1' as nat)
        {
          assert Followed(t[1..], i - 1) && t[1..][i - 1] == t[i];
        }
      }
    }
  }

  lemma GatewayNames(name: Text)
    ensures IsGateways(name) <==> BeginsGateway(name)
  {
    var prefix, upper := Codes("x-airnode-"), Codes("X-AIRNODE-");
    assert AIRNODE == prefix;
    forall i | 0 <= i < 10 && |name| >= 10
      ensures Lower(name[i]) == AIRNODE[i] <==> name[i] == prefix[i] || name[i] == upper[i]
    {
    }
  }

  lemma Verbs()
    ensures GET == Codes("GET") && POST == Codes("POST") && GET != POST
  {
    assert GET[0] != POST[0];
  }

  lemma NamesArePlain(m: map<Text, Text>)
    ensures EachField(m, MayName) <==> forall name :: name in m ==> PlainText(name)
  {
    forall t: Text ensures Unreserved(t) <==> PlainText(t) {
    }
  }

  lemma QueryNames(m: map<Text, Text>)
    ensures EachField(m, MayQuery) <==> forall name :: name in m ==> !BeginsGateway(name)
  {
    forall name: Text ensures IsGateways(name) <==> BeginsGateway(name) { GatewayNames(name); }
  }

  lemma Pointers(m: map<Text, Text>)
    ensures EachField(m, MayProject) <==> forall alias :: alias in m ==> PlainPointer(m[alias])
  {
    forall t: Text ensures IsPointer(t) <==> PlainPointer(t) { PointerIsPlain(t); }
  }

  /** The requests that have a text, in the rules of the gateway. */
  lemma ValidInCharacters(k: Codec, r: Request)
    ensures Valid(k, r) <==>
            var query := if r.query.None? then map[] else r.query.value;
            var body := if r.body.None? then [] else r.body.value;
            && PlainPath(r.path)
            && (|| (r.verb == Codes("GET") && body == [])
                || (r.verb == Codes("POST") && k.parse(body).Some?))
            && (forall name :: name in query ==> PlainText(name))
            && (forall name :: name in query ==> !BeginsGateway(name))
            && (r.projection.Some? ==>
                  && r.projection.value != map[]
                  && (forall alias :: alias in r.projection.value ==> PlainText(alias))
                  && forall alias :: alias in r.projection.value ==> PlainPointer(r.projection.value[alias]))
  {
    PathIsPlain(r.path);
    Verbs();
    NamesArePlain(OrEmpty(r.query));
    QueryNames(OrEmpty(r.query));
    if r.projection.Some? {
      NamesArePlain(r.projection.value);
      Pointers(r.projection.value);
    }
  }
}
