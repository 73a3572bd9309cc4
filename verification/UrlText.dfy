/**
 The characters of a passthrough URL (`passthroughUrl`, src/sources.ts): what a percent-decoder as in section 2.1 of
 RFC 3986 reads from it, and which parts stand in which order.
 */
module UrlText {
  import opened Common
  import opened Entries
  import opened Passthrough
  import opened PassthroughText
  import opened PassthroughUrl

  // ---- percent-decoding

  /** The value of a hexadecimal digit of either case. */
  ghost function HexValue(c: nat): Option<nat> {
    if '0' as nat <= c <= '9' as nat then Some(c - '0' as nat)
    else if 'A' as nat <= c <= 'F' as nat then Some(c - 'A' as nat + 10)
    else if 'a' as nat <= c <= 'f' as nat then Some(c - 'a' as nat + 10)
    else None
  }

  /** The octets a text stands for: a percent sign and two digits, or an ASCII character, stand for one. */
  ghost function Decode(t: Text): Option<seq<byte>> {
    if t == [] then Some([])
    else if t[0] == '%' as nat then
      if |t| < 3 || HexValue(t[1]).None? || HexValue(t[2]).None? || Decode(t[3..]).None? then None
      else Some([16 * HexValue(t[1]).value + HexValue(t[2]).value] + Decode(t[3..]).value)
    else if t[0] >= 0x80 || Decode(t[1..]).None? then None
    else Some([t[0]] + Decode(t[1..]).value)
  }

  /** An octet that is a plain character is written as it is, any other as a percent sign and two upper-case digits. */
  lemma EncodedOctet(b: byte)
    ensures var digits := "0123456789ABCDEF";
            EncodeByte(b)
            == if PlainCharacter(b) then [b] else ['%' as nat, digits[b / 16] as nat, digits[b % 16] as nat]
  {
    HexDigits(b / 16);
    HexDigits(b % 16);
  }

  lemma HexDigits(n: nat)
    requires n < 16
    ensures HexDigit(n) == "0123456789ABCDEF"[n] as nat && HexValue(HexDigit(n)) == Some(n)
  {
  }

  lemma DecodePercent(h: nat, l: nat, rest: Text)
    requires Decode(rest).Some? && HexValue(h).Some? && HexValue(l).Some?
    ensures Decode(['%' as nat, h, l] + rest) == Some([16 * HexValue(h).value + HexValue(l).value] + Decode(rest).value)
  {
    assert (['%' as nat, h, l] + rest)[3..] == rest;
  }

  lemma DecodeOctet(b: byte, rest: Text)
    requires Decode(rest).Some?
    ensures Decode(EncodeByte(b) + rest) == Some([b] + Decode(rest).value)
  {
    if IsUnreserved(b) {
      assert (EncodeByte(b) + rest)[1..] == rest;
    } else {
      HexDigits(b / 16);
      HexDigits(b % 16);
      DecodePercent(HexDigit(b / 16), HexDigit(b % 16), rest);
      assert 16 * (b / 16) + b % 16 == b;
    }
  }

  /** What is encoded is decoded. */
  lemma {:induction false} DecodeOfEncode(bytes: seq<byte>)
    ensures Decode(PercentEncode(bytes)) == Some(bytes)
  {
    if bytes != [] {
      DecodeOfEncode(bytes[1..]);
      DecodeOctet(bytes[0], PercentEncode(bytes[1..]));
      assert bytes == [bytes[0]] + bytes[1..];
    }
  }

  // ---- the parts of a URL

  /** A gateway's address without the slashes at its end. */
  ghost predicate IsBase(base: Text, gateway: Text) {
    && base <= gateway && (base == [] || base[|base| - 1] != '/' as nat)
    && forall i :: |base| <= i < |gateway| ==> gateway[i] == '/' as nat
  }

  lemma {:induction false} Stripped(gateway: Text)
    ensures IsBase(StripSlashes(gateway), gateway)
  {
    if gateway != [] && gateway[|gateway| - 1] == SLASH {
      var front := gateway[..|gateway| - 1];
      Stripped(front);
      assert StripSlashes(gateway) == StripSlashes(front);
      forall i | |StripSlashes(front)| <= i < |gateway| ensures gateway[i] == '/' as nat {
        if i < |front| { assert front[i] == gateway[i]; }
      }
    }
  }

  /** Parameters with an ampersand between each and the next. */
  ghost predicate Joins(text: Text, tokens: seq<Text>)
    decreases |tokens|
  {
    && tokens != []
    && (|tokens| == 1 ==> text == tokens[0])
    && (|tokens| > 1 ==>
          && |text| > |tokens[0]| && text[..|tokens[0]|] == tokens[0] && text[|tokens[0]|] == '&' as nat
          && Joins(text[|tokens[0]| + 1..], tokens[1..]))
  }

  lemma {:induction false} JoinJoins(tokens: seq<Text>)
    requires tokens != []
    ensures Joins(Join(tokens), tokens)
    decreases |tokens|
  {
    if |tokens| > 1 {
      JoinJoins(tokens[1..]);
      assert Join(tokens)[|tokens[0]| + 1..] == Join(tokens[1..]);
    }
  }

  /** A parameter: a name, an equals sign and the encoding of a value. */
  ghost predicate IsParameter(token: Text, name: Text, value: seq<byte>) {
    && |token| > |name| && token[..|name|] == name && token[|name|] == '=' as nat
    && Decode(token[|name| + 1..]) == Some(value)
  }

  lemma QueryParameter(utf8: Text -> seq<byte>, e: (Text, Text))
    requires IsUtf8(utf8) && Unreserved(e.0)
    ensures IsParameter(QueryToken(utf8, e), e.0, utf8(e.1))
  {
    NameStays(utf8, e.0);
    var token := QueryToken(utf8, e);
    assert token[|e.0| + 1..] == PercentEncode(utf8(e.1));
    DecodeOfEncode(utf8(e.1));
  }

  lemma ProjectWord()
    ensures PROJECT == Codes("x-airnode-project") && API == Codes("/api")
  {
  }

  lemma ProjectParameter(utf8: Text -> seq<byte>, e: (Text, Text))
    ensures IsParameter(ProjectToken(utf8, e), Codes("x-airnode-project"), utf8(e.0 + [':' as nat] + e.1))
  {
    ProjectWord();
    var token, value := ProjectToken(utf8, e), utf8(e.0 + [COLON] + e.1);
    assert token[|PROJECT| + 1..] == PercentEncode(value);
    DecodeOfEncode(value);
  }

  /** The entries of an object in the order of their names. */
  ghost predicate InOrder(es: seq<(Text, Text)>, m: map<Text, Text>) {
    && (forall x :: x in es <==> x.0 in m && m[x.0] == x.1)
    && forall i, j :: 0 <= i < j < |es| ==> Precedes(es[i].0, es[j].0)
  }

  lemma SortedInOrder(m: map<Text, Text>)
    ensures InOrder(SortedEntries(m), m)
  {
    var es := SortedEntries(m);
    forall x ensures x in es <==> x.0 in m && m[x.0] == x.1 { SortedEntriesHold(m, x); }
    SortedEntriesAscend(m);
    forall i, j | 0 <= i < j < |es| ensures Precedes(es[i].0, es[j].0) { LessIff(es[i].0, es[j].0); }
  }

  /** One parameter for each query entry, and then one for each projection entry. */
  ghost predicate Say(utf8: Text -> seq<byte>, tokens: seq<Text>, query: seq<(Text, Text)>,
      projection: seq<(Text, Text)>)
  {
    && |tokens| == |query| + |projection|
    && (forall i :: 0 <= i < |query| ==> IsParameter(tokens[i], query[i].0, utf8(query[i].1)))
    && forall i :: 0 <= i < |projection| ==> Projects(utf8, tokens[|query| + i], projection[i])
  }

  ghost predicate Projects(utf8: Text -> seq<byte>, token: Text, e: (Text, Text)) {
    IsParameter(token, Codes("x-airnode-project"), utf8(e.0 + [':' as nat] + e.1))
  }

  lemma TokensSayAll(utf8: Text -> seq<byte>, query: seq<(Text, Text)>, projection: seq<(Text, Text)>)
    requires IsUtf8(utf8) && Sendable(query, projection)
    ensures Say(utf8, Tokens(utf8, query, projection), query, projection)
  {
    var tokens := Tokens(utf8, query, projection);
    forall i | 0 <= i < |query| ensures IsParameter(tokens[i], query[i].0, utf8(query[i].1)) {
      QueryParameter(utf8, query[i]);
    }
    forall i | 0 <= i < |projection| ensures Projects(utf8, tokens[|query| + i], projection[i]) {
      ProjectParameter(utf8, projection[i]);
    }
  }

  /** Nothing without parameters, else a question mark and the parameters. */
  ghost predicate Asks(text: Text, tokens: seq<Text>) {
    if tokens == [] then text == [] else text != [] && text[0] == '?' as nat && Joins(text[1..], tokens)
  }

  lemma ParametersAsk(tokens: seq<Text>)
    ensures Asks(Parameters(tokens), tokens)
  {
    if tokens != [] {
      JoinJoins(tokens);
      assert Parameters(tokens)[1..] == Join(tokens);
    }
  }

  /**
   The URL of a request: the gateway without slashes at its end, /api, the path, and behind a question mark, if there is
   any, one parameter for each query entry and then one for each projection entry, in the order of their names.
   */
  lemma UrlParts(utf8: Text -> seq<byte>, k: Codec, gateway: Text, r: Request)
      returns (base: Text, query: seq<(Text, Text)>, projection: seq<(Text, Text)>, tokens: seq<Text>, text: Text)
    requires IsUtf8(utf8) && Valid(k, r)
    ensures Url(utf8, gateway, r) == base + Codes("/api") + r.path + text
    ensures IsBase(base, gateway) && Asks(text, tokens) && Say(utf8, tokens, query, projection)
    ensures InOrder(query, if r.query.None? then map[] else r.query.value)
    ensures InOrder(projection, if r.projection.None? then map[] else r.projection.value)
  {
    base := StripSlashes(gateway);
    query, projection := SortedEntries(OrEmpty(r.query)), SortedEntries(OrEmpty(r.projection));
    tokens := TokensOf(utf8, r);
    text := Parameters(tokens);
    Stripped(gateway);
    ProjectWord();
    SortedInOrder(OrEmpty(r.query));
    SortedInOrder(OrEmpty(r.projection));
    ParametersAsk(tokens);
    ValidIsSendable(k, r);
    TokensSayAll(utf8, query, projection);
  }
}
