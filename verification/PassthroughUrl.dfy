/**
 Where a passthrough request is sent (`passthroughUrl`, src/sources.ts): percent-encoding as in section 2 of RFC 3986,
 and what a URL says about the request. UTF-8 is a parameter, `utf8`.
 */
module PassthroughUrl {
  import opened Common
  import opened Entries
  import opened Canonical
  import opened Passthrough

  const PERCENT := 0x25
  const QUESTION := 0x3F
  const AMPERSAND := 0x26
  const EQUALS := 0x3D
  const COLON := 0x3A
  const API: Text := [SLASH, 0x61, 0x70, 0x69]
  /** The parameter that carries a projection entry, x-airnode-project */
  const PROJECT: Text := AIRNODE + [0x70, 0x72, 0x6F, 0x6A, 0x65, 0x63, 0x74]

  // ---- percent-encoding

  function HexDigit(n: nat): nat
    requires n < 16
  {
    if n < 10 then 0x30 + n else 0x41 + n - 10
  }

  function EncodeByte(b: byte): Text {
    if IsUnreserved(b) then [b] else [PERCENT, HexDigit(b / 16), HexDigit(b % 16)]
  }

  function PercentEncode(bytes: seq<byte>): Text {
    if bytes == [] then [] else EncodeByte(bytes[0]) + PercentEncode(bytes[1..])
  }

  /** Only unreserved characters and percent signs are left. */
  lemma {:induction false} EncodedCharacters(bytes: seq<byte>, c: nat)
    requires c in PercentEncode(bytes)
    ensures IsUnreserved(c) || c == PERCENT
  {
    if c in EncodeByte(bytes[0]) {
    } else {
      EncodedCharacters(bytes[1..], c);
    }
  }

  /** The encodings of two bytes, whatever follows, begin alike only for one byte. */
  lemma ByteIsPrefixFree(a: byte, b: byte, x: Text, y: Text)
    requires EncodeByte(a) + x == EncodeByte(b) + y
    ensures a == b && x == y
  {
    var l, r := EncodeByte(a) + x, EncodeByte(b) + y;
    assert l[0] == r[0];
    assert IsUnreserved(a) <==> l[0] != PERCENT;
    assert IsUnreserved(b) <==> r[0] != PERCENT;
    if !IsUnreserved(a) {
      assert l[1] == r[1] && l[2] == r[2];
      assert a == 16 * (a / 16) + a % 16 && b == 16 * (b / 16) + b % 16;
    }
    assert x == l[|EncodeByte(a)|..] && y == r[|EncodeByte(b)|..];
  }

  /** Percent-encoding is injective. */
  lemma {:induction false} PercentEncodeInjective(a: seq<byte>, b: seq<byte>)
    requires PercentEncode(a) == PercentEncode(b)
    ensures a == b
  {
    assert PercentEncode(a) == [] <==> a == [];
    if a != [] {
      ByteIsPrefixFree(a[0], b[0], PercentEncode(a[1..]), PercentEncode(b[1..]));
      PercentEncodeInjective(a[1..], b[1..]);
      assert a == [a[0]] + a[1..] && b == [b[0]] + b[1..];
    }
  }

  // ---- splitting at a separator

  /** What comes before the first separator, and what after, are determined by the whole. */
  lemma SplitUnique(x: Text, x': Text, y: Text, y': Text, sep: nat)
    requires sep !in x && sep !in x' && x + [sep] + y == x' + [sep] + y'
    ensures x == x' && y == y'
  {
    var whole := x + [sep] + y;
    assert whole[|x|] == sep && whole[|x'|] == sep;
    assert |x| == |x'|;
    assert x == whole[..|x|] && x' == whole[..|x'|];
    assert y == whole[|x| + 1..] && y' == whole[|x'| + 1..];
  }

  // ---- parameters

  /** The tokens joined by ampersands. */
  function Join(tokens: seq<Text>): Text
    requires tokens != []
  {
    if |tokens| == 1 then tokens[0] else tokens[0] + [AMPERSAND] + Join(tokens[1..])
  }

  ghost predicate NoAmpersand(tokens: seq<Text>) {
    forall i :: 0 <= i < |tokens| ==> AMPERSAND !in tokens[i]
  }

  lemma JoinHasAmpersand(tokens: seq<Text>)
    requires tokens != [] && NoAmpersand(tokens)
    ensures AMPERSAND in Join(tokens) <==> |tokens| > 1
  {
  }

  lemma {:induction false} JoinInjective(a: seq<Text>, b: seq<Text>)
    requires a != [] && b != [] && NoAmpersand(a) && NoAmpersand(b) && Join(a) == Join(b)
    ensures a == b
  {
    JoinHasAmpersand(a);
    JoinHasAmpersand(b);
    if |a| > 1 {
      SplitUnique(a[0], b[0], Join(a[1..]), Join(b[1..]), AMPERSAND);
      JoinInjective(a[1..], b[1..]);
      assert a == [a[0]] + a[1..] && b == [b[0]] + b[1..];
    }
  }

  /** UTF-8, as far as it is used: an ASCII text in front of another stays as it is. */
  ghost predicate IsUtf8(utf8: Text -> seq<byte>) {
    utf8([]) == [] && forall a: seq<byte>, b: Text :: Ascii(a) ==> utf8(a + b) == a + utf8(b)
  }

  predicate Ascii(t: Text) {
    forall i :: 0 <= i < |t| ==> t[i] < 0x80
  }

  function QueryToken(utf8: Text -> seq<byte>, e: (Text, Text)): Text {
    PercentEncode(utf8(e.0)) + [EQUALS] + PercentEncode(utf8(e.1))
  }

  function ProjectToken(utf8: Text -> seq<byte>, e: (Text, Text)): Text {
    PROJECT + [EQUALS] + PercentEncode(utf8(e.0 + [COLON] + e.1))
  }

  /** The parameters of query and projection entries, in order. */
  function Tokens(utf8: Text -> seq<byte>, query: seq<(Text, Text)>, projection: seq<(Text, Text)>): (r: seq<Text>)
    ensures |r| == |query| + |projection|
  {
    seq(|query|, i requires 0 <= i < |query| => QueryToken(utf8, query[i]))
    + seq(|projection|, i requires 0 <= i < |projection| => ProjectToken(utf8, projection[i]))
  }

  /** The gateway's address without the slashes at its end. */
  function StripSlashes(gateway: Text): Text {
    if gateway != [] && gateway[|gateway| - 1] == SLASH then StripSlashes(gateway[..|gateway| - 1]) else gateway
  }

  function Parameters(tokens: seq<Text>): Text {
    if tokens == [] then [] else [QUESTION] + Join(tokens)
  }

  ghost function TokensOf(utf8: Text -> seq<byte>, r: Request): seq<Text> {
    Tokens(utf8, SortedEntries(OrEmpty(r.query)), SortedEntries(OrEmpty(r.projection)))
  }

  /** `passthroughUrl`. */
  ghost function Url(utf8: Text -> seq<byte>, gateway: Text, r: Request): Text {
    StripSlashes(gateway) + API + r.path + Parameters(TokensOf(utf8, r))
  }

  // ---- what a token says

  lemma AsciiIsUtf8(utf8: Text -> seq<byte>, t: Text)
    requires IsUtf8(utf8) && Ascii(t)
    ensures utf8(t) == t
  {
    var bytes: seq<byte> := t;
    assert bytes + [] == t;
    assert utf8(bytes + []) == bytes + utf8([]);
  }

  lemma {:induction false} UnreservedStays(t: seq<byte>)
    requires forall i :: 0 <= i < |t| ==> IsUnreserved(t[i])
    ensures PercentEncode(t) == t
  {
    if t != [] {
      UnreservedStays(t[1..]);
      assert t == [t[0]] + t[1..];
    }
  }

  /** A name is sent as it is. */
  lemma NameStays(utf8: Text -> seq<byte>, name: Text)
    requires IsUtf8(utf8) && Unreserved(name)
    ensures utf8(name) == name && PercentEncode(utf8(name)) == name && EQUALS !in name && COLON !in name
  {
    AsciiIsUtf8(utf8, name);
    UnreservedStays(utf8(name));
  }

  lemma ProjectName()
    ensures EQUALS !in PROJECT && AMPERSAND !in PROJECT && IsGateways(PROJECT)
  {
    assert forall i :: 0 <= i < |PROJECT| ==> IsUnreserved(PROJECT[i]);
    assert forall i :: 0 <= i < |AIRNODE| ==> Lower(AIRNODE[i]) == AIRNODE[i];
    assert forall i :: 0 <= i < |AIRNODE| ==> PROJECT[i] == AIRNODE[i];
  }

  lemma EncodedHasNone(bytes: seq<byte>, c: nat)
    requires !IsUnreserved(c) && c != PERCENT
    ensures c !in PercentEncode(bytes)
  {
    if c in PercentEncode(bytes) { EncodedCharacters(bytes, c); }
  }

  lemma TokensHaveNoAmpersand(utf8: Text -> seq<byte>, query: seq<(Text, Text)>, projection: seq<(Text, Text)>)
    ensures NoAmpersand(Tokens(utf8, query, projection))
  {
    var tokens := Tokens(utf8, query, projection);
    ProjectName();
    forall i | 0 <= i < |tokens| ensures AMPERSAND !in tokens[i] {
      if i < |query| {
        EncodedHasNone(utf8(query[i].0), AMPERSAND);
        EncodedHasNone(utf8(query[i].1), AMPERSAND);
      } else {
        var e := projection[i - |query|];
        EncodedHasNone(utf8(e.0 + [COLON] + e.1), AMPERSAND);
      }
    }
  }

  /** Equal query tokens name the same parameter and carry the same bytes. */
  lemma QueryTokenSays(utf8: Text -> seq<byte>, d: (Text, Text), e: (Text, Text))
    requires IsUtf8(utf8) && Unreserved(d.0) && Unreserved(e.0) && QueryToken(utf8, d) == QueryToken(utf8, e)
    ensures d.0 == e.0 && utf8(d.1) == utf8(e.1)
  {
    NameStays(utf8, d.0);
    NameStays(utf8, e.0);
    SplitUnique(d.0, e.0, PercentEncode(utf8(d.1)), PercentEncode(utf8(e.1)), EQUALS);
    PercentEncodeInjective(utf8(d.1), utf8(e.1));
  }

  lemma AliasStays(utf8: Text -> seq<byte>, e: (Text, Text))
    requires IsUtf8(utf8) && Unreserved(e.0)
    ensures utf8(e.0 + [COLON] + e.1) == e.0 + [COLON] + utf8(e.1)
  {
    var front: seq<byte> := e.0 + [COLON];
    assert Ascii(front);
  }

  /** Equal projection tokens carry the same alias and the same bytes. */
  lemma ProjectTokenSays(utf8: Text -> seq<byte>, d: (Text, Text), e: (Text, Text))
    requires IsUtf8(utf8) && Unreserved(d.0) && Unreserved(e.0) && ProjectToken(utf8, d) == ProjectToken(utf8, e)
    ensures d.0 == e.0 && utf8(d.1) == utf8(e.1)
  {
    ProjectName();
    SplitUnique(PROJECT, PROJECT, PercentEncode(utf8(d.0 + [COLON] + d.1)), PercentEncode(utf8(e.0 + [COLON] + e.1)),
        EQUALS);
    PercentEncodeInjective(utf8(d.0 + [COLON] + d.1), utf8(e.0 + [COLON] + e.1));
    AliasStays(utf8, d);
    AliasStays(utf8, e);
    NameStays(utf8, d.0);
    NameStays(utf8, e.0);
    SplitUnique(d.0, e.0, utf8(d.1), utf8(e.1), COLON);
  }

  /** A query token is no projection token: the gateway's names are not query names. */
  lemma TokensDiffer(utf8: Text -> seq<byte>, d: (Text, Text), e: (Text, Text))
    requires IsUtf8(utf8) && Unreserved(d.0) && !IsGateways(d.0)
    ensures QueryToken(utf8, d) != ProjectToken(utf8, e)
  {
    if QueryToken(utf8, d) == ProjectToken(utf8, e) {
      ProjectName();
      NameStays(utf8, d.0);
      SplitUnique(d.0, PROJECT, PercentEncode(utf8(d.1)), PercentEncode(utf8(e.0 + [COLON] + e.1)), EQUALS);
    }
  }

  // ---- what a URL says

  ghost predicate Sendable(query: seq<(Text, Text)>, projection: seq<(Text, Text)>) {
    && (forall i :: 0 <= i < |query| ==> Unreserved(query[i].0) && !IsGateways(query[i].0))
    && (forall i :: 0 <= i < |projection| ==> Unreserved(projection[i].0))
  }

  /** Entries with the same names and, byte by byte, the same values. */
  ghost predicate SameOnWire(utf8: Text -> seq<byte>, d: seq<(Text, Text)>, e: seq<(Text, Text)>) {
    |d| == |e| && forall i :: 0 <= i < |d| ==> d[i].0 == e[i].0 && utf8(d[i].1) == utf8(e[i].1)
  }

  lemma QueryEndsTogether(utf8: Text -> seq<byte>, q: seq<(Text, Text)>, p: seq<(Text, Text)>, q': seq<(Text, Text)>,
      p': seq<(Text, Text)>)
    requires IsUtf8(utf8) && Sendable(q, p) && Sendable(q', p') && Tokens(utf8, q, p) == Tokens(utf8, q', p')
    ensures |q| <= |q'|
  {
    if |q| > |q'| {
      var i := |q'|;
      assert Tokens(utf8, q, p)[i] == Tokens(utf8, q', p')[i];
      TokensDiffer(utf8, q[i], p'[0]);
    }
  }

  /** Parameters determine names, aliases and the bytes of values and pointers. */
  lemma TokensSay(utf8: Text -> seq<byte>, q: seq<(Text, Text)>, p: seq<(Text, Text)>, q': seq<(Text, Text)>,
      p': seq<(Text, Text)>)
    requires IsUtf8(utf8) && Sendable(q, p) && Sendable(q', p') && Tokens(utf8, q, p) == Tokens(utf8, q', p')
    ensures SameOnWire(utf8, q, q') && SameOnWire(utf8, p, p')
  {
    QueryEndsTogether(utf8, q, p, q', p');
    QueryEndsTogether(utf8, q', p', q, p);
    forall i | 0 <= i < |q| ensures q[i].0 == q'[i].0 && utf8(q[i].1) == utf8(q'[i].1) {
      assert Tokens(utf8, q, p)[i] == Tokens(utf8, q', p')[i];
      QueryTokenSays(utf8, q[i], q'[i]);
    }
    forall i | 0 <= i < |p| ensures p[i].0 == p'[i].0 && utf8(p[i].1) == utf8(p'[i].1) {
      assert Tokens(utf8, q, p)[|q| + i] == Tokens(utf8, q', p')[|q| + i];
      ProjectTokenSays(utf8, p[i], p'[i]);
    }
  }

  /** Conversely, what is the same on the wire has the same parameters. */
  lemma TokensAgree(utf8: Text -> seq<byte>, q: seq<(Text, Text)>, p: seq<(Text, Text)>, q': seq<(Text, Text)>,
      p': seq<(Text, Text)>)
    requires IsUtf8(utf8) && Sendable(q, p) && Sendable(q', p') && SameOnWire(utf8, q, q') && SameOnWire(utf8, p, p')
    ensures Tokens(utf8, q, p) == Tokens(utf8, q', p')
  {
    forall i | 0 <= i < |p| ensures ProjectToken(utf8, p[i]) == ProjectToken(utf8, p'[i]) {
      AliasStays(utf8, p[i]);
      AliasStays(utf8, p'[i]);
    }
  }

  lemma {:induction false} SplitHolds(t: Text, c: nat)
    requires c in t && c != SLASH
    ensures exists i :: 0 <= i < |Split(t)| && c in Split(t)[i]
  {
    var rest := Split(t[1..]);
    if t[0] == SLASH {
      SplitHolds(t[1..], c);
      var i :| 0 <= i < |rest| && c in rest[i];
      assert c in Split(t)[i + 1];
    } else if c == t[0] {
      assert c in Split(t)[0];
    } else {
      SplitHolds(t[1..], c);
      var i :| 0 <= i < |rest| && c in rest[i];
      assert c in Split(t)[i];
    }
  }

  lemma PathCharacters(path: Text, c: nat)
    requires IsPath(path) && c in path
    ensures IsUnreserved(c) || c == SLASH
  {
    assert path == [SLASH] + path[1..];
    if c != SLASH {
      SplitHolds(path[1..], c);
      var i :| 0 <= i < |Split(path[1..])| && c in Split(path[1..])[i];
      assert IsSegment(Split(path[1..])[i]);
    }
  }

  /** Path and parameters are told apart. */
  lemma PathAndParameters(path: Text, tokens: seq<Text>, path': Text, tokens': seq<Text>)
    requires QUESTION !in path && QUESTION !in path' && NoAmpersand(tokens) && NoAmpersand(tokens')
    requires path + Parameters(tokens) == path' + Parameters(tokens')
    ensures path == path' && tokens == tokens'
  {
    assert path + [] == path && path' + [] == path';
    assert QUESTION in path + Parameters(tokens) <==> tokens != [];
    assert QUESTION in path' + Parameters(tokens') <==> tokens' != [];
    if tokens != [] {
      assert path + ([QUESTION] + Join(tokens)) == path + [QUESTION] + Join(tokens);
      assert path' + ([QUESTION] + Join(tokens')) == path' + [QUESTION] + Join(tokens');
      SplitUnique(path, path', Join(tokens), Join(tokens'), QUESTION);
      JoinInjective(tokens, tokens');
    }
  }

  lemma ValidIsSendable(k: Codec, r: Request)
    requires Valid(k, r)
    ensures Sendable(SortedEntries(OrEmpty(r.query)), SortedEntries(OrEmpty(r.projection)))
  {
    var q, p := SortedEntries(OrEmpty(r.query)), SortedEntries(OrEmpty(r.projection));
    EntriesAreFields(OrEmpty(r.query), MayName);
    EntriesAreFields(OrEmpty(r.query), MayQuery);
    EntriesAreFields(OrEmpty(r.projection), MayName);
    forall i | 0 <= i < |q| ensures Unreserved(q[i].0) && !IsGateways(q[i].0) {
      assert MayName(q[i].0, q[i].1) && MayQuery(q[i].0, q[i].1);
    }
    forall i | 0 <= i < |p| ensures Unreserved(p[i].0) { assert MayName(p[i].0, p[i].1); }
  }

  /** Objects with the same names whose values are the same bytes. */
  ghost predicate SameBytes(utf8: Text -> seq<byte>, m: map<Text, Text>, n: map<Text, Text>) {
    m.Keys == n.Keys && forall name :: name in m ==> utf8(m[name]) == utf8(n[name])
  }

  /** Sorted entries are the same on the wire exactly when the objects hold the same bytes. */
  lemma WireIffBytes(utf8: Text -> seq<byte>, m: map<Text, Text>, n: map<Text, Text>)
    ensures SameOnWire(utf8, SortedEntries(m), SortedEntries(n)) <==> SameBytes(utf8, m, n)
  {
    if SameOnWire(utf8, SortedEntries(m), SortedEntries(n)) { WireMeansBytes(utf8, m, n); }
    if SameBytes(utf8, m, n) { BytesMeanWire(utf8, m, n); }
  }

  lemma WireMeansBytes(utf8: Text -> seq<byte>, m: map<Text, Text>, n: map<Text, Text>)
    requires SameOnWire(utf8, SortedEntries(m), SortedEntries(n))
    ensures SameBytes(utf8, m, n)
  {
    FieldOnWire(utf8, m, n);
    FieldOnWire(utf8, n, m);
  }

  lemma FieldOnWire(utf8: Text -> seq<byte>, m: map<Text, Text>, n: map<Text, Text>)
    requires SameOnWire(utf8, SortedEntries(m), SortedEntries(n))
    ensures forall name :: name in m ==> name in n && utf8(m[name]) == utf8(n[name])
  {
    var d, e := SortedEntries(m), SortedEntries(n);
    forall name | name in m ensures name in n && utf8(m[name]) == utf8(n[name]) {
      SortedEntriesHold(m, (name, m[name]));
      var i :| 0 <= i < |d| && d[i] == (name, m[name]);
      SortedEntriesHold(n, e[i]);
    }
  }

  /** The entries of an object, their values as bytes. */
  lemma BytesMeanWire(utf8: Text -> seq<byte>, m: map<Text, Text>, n: map<Text, Text>)
    requires SameBytes(utf8, m, n)
    ensures SameOnWire(utf8, SortedEntries(m), SortedEntries(n))
  {
    var d, e := SortedEntries(m), SortedEntries(n);
    var db, eb := MapValues(d, utf8), MapValues(e, utf8);
    SortedEntriesAscend(m);
    SortedEntriesAscend(n);
    forall x: (Text, seq<byte>) ensures x in db <==> x in eb {
      BytesOfEntries(utf8, m, x);
      BytesOfEntries(utf8, n, x);
    }
    AscendingUnique(db, eb);
    forall i | 0 <= i < |d| ensures d[i].0 == e[i].0 && utf8(d[i].1) == utf8(e[i].1) { assert db[i] == eb[i]; }
  }

  lemma BytesOfEntries(utf8: Text -> seq<byte>, m: map<Text, Text>, x: (Text, seq<byte>))
    ensures x in MapValues(SortedEntries(m), utf8) <==> x.0 in m && utf8(m[x.0]) == x.1
  {
    var d := SortedEntries(m);
    var db := MapValues(d, utf8);
    if x in db {
      var i :| 0 <= i < |db| && db[i] == x;
      SortedEntriesHold(m, d[i]);
    }
    if x.0 in m && utf8(m[x.0]) == x.1 {
      SortedEntriesHold(m, (x.0, m[x.0]));
      var i :| 0 <= i < |d| && d[i] == (x.0, m[x.0]);
      assert db[i] == x;
    }
  }

  /** For one gateway, the URL says exactly the path, and names and bytes of query and projection. */
  lemma UrlIffSameOnWire(utf8: Text -> seq<byte>, k: Codec, gateway: Text, r: Request, s: Request)
    requires IsUtf8(utf8) && Valid(k, r) && Valid(k, s)
    ensures Url(utf8, gateway, r) == Url(utf8, gateway, s) <==>
            r.path == s.path && SameBytes(utf8, OrEmpty(r.query), OrEmpty(s.query))
            && SameBytes(utf8, OrEmpty(r.projection), OrEmpty(s.projection))
  {
    ValidIsSendable(k, r);
    ValidIsSendable(k, s);
    WireIffBytes(utf8, OrEmpty(r.query), OrEmpty(s.query));
    WireIffBytes(utf8, OrEmpty(r.projection), OrEmpty(s.projection));
    var q, p := SortedEntries(OrEmpty(r.query)), SortedEntries(OrEmpty(r.projection));
    var q', p' := SortedEntries(OrEmpty(s.query)), SortedEntries(OrEmpty(s.projection));
    if SameOnWire(utf8, q, q') && SameOnWire(utf8, p, p') { TokensAgree(utf8, q, p, q', p'); }
    if Url(utf8, gateway, r) == Url(utf8, gateway, s) {
      if QUESTION in r.path { PathCharacters(r.path, QUESTION); }
      if QUESTION in s.path { PathCharacters(s.path, QUESTION); }
      TokensHaveNoAmpersand(utf8, q, p);
      TokensHaveNoAmpersand(utf8, q', p');
      DropFront(StripSlashes(gateway) + API, r.path, Parameters(TokensOf(utf8, r)), s.path,
          Parameters(TokensOf(utf8, s)));
      PathAndParameters(r.path, TokensOf(utf8, r), s.path, TokensOf(utf8, s));
      TokensSay(utf8, q, p, q', p');
    }
  }

  lemma DropFront(front: Text, a: Text, b: Text, a': Text, b': Text)
    requires front + a + b == front + a' + b'
    ensures a + b == a' + b'
  {
    assert a + b == (front + a + b)[|front|..];
    assert a' + b' == (front + a' + b')[|front|..];
  }
}
