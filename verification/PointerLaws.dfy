/** What the two notations of a JSON Pointer guarantee. */
module PointerLaws {
  import opened Encodings
  import opened Transcoding
  import opened PointerSyntax

  /** The tokens as the parser would build them from the same names. */
  function Reparsed(ts: seq<Token>): seq<Token> {
    seq(|ts|, k requires 0 <= k < |ts| => Token(ts[k].name, IndexOf(ts[k].name)))
  }

  // ------------------------------------------------------------------ print, then parse

  lemma PrependTwice(a: seq<Byte>, b: seq<Byte>, r: NameResult)
    ensures Prepend(a, Prepend(b, r)) == Prepend(a + b, r)
  {
    if r.Name? {
      ConcatAssoc(a, b, r.name);
    }
  }

  lemma HexDigits(b: Byte, rest: seq<Byte>)
    ensures TripletAt(PercentEncode([b]) + rest, 0) == Some(b)
  {
    assert HexValue(HexDigit(b / 16)) == Some(b / 16) && HexValue(HexDigit(b % 16)) == Some(b % 16);
  }

  lemma {:induction false} EncodedTriplets(bs: seq<Byte>, rest: seq<Byte>, k: nat)
    requires k < |bs|
    ensures TripletAt(PercentEncode(bs) + rest, 3 * k) == Some(bs[k])
  {
    var s := PercentEncode(bs) + rest;
    if k == 0 {
      HexDigits(bs[0], PercentEncode(bs[1..]) + rest);
      assert s == PercentEncode([bs[0]]) + (PercentEncode(bs[1..]) + rest);
    } else {
      EncodedTriplets(bs[1..], rest, k - 1);
      assert s[3..] == PercentEncode(bs[1..]) + rest;
      TripletShift(s, 3, 3 * (k - 1));
    }
  }

  lemma TripletShift(s: seq<Byte>, i: nat, j: nat)
    requires i <= |s|
    ensures TripletAt(s[i..], j) == TripletAt(s, i + j)
  {
    if i + j + 3 <= |s| {
      assert s[i..][j] == s[i + j] && s[i..][j + 1] == s[i + j + 1] && s[i..][j + 2] == s[i + j + 2];
    }
  }

  lemma EncodedUnit(u: seq<Byte>, rest: seq<Byte>)
    requires ValidUnit(u)
    ensures PercentUnit(PercentEncode(u) + rest) == Some(u)
  {
    var s := PercentEncode(u) + rest;
    EncodedTriplets(u, rest, 0);
    forall k | 0 <= k < |u|
      ensures TripletAt(s, 3 * k) == Some(u[k])
    {
      EncodedTriplets(u, rest, k);
    }
    assert Triplets(s, |u|).value == u;
  }

  /** The item that a printed unit reads back as. */
  lemma ItemOfEncoded(u: seq<Byte>, rest: seq<Byte>)
    requires ValidUnit(u) && NeedPercentEncode(u[0])
    ensures ItemOf(PercentEncode(u) + rest, true) == Item(u, rest)
  {
    EncodedUnit(u, rest);
    var s := PercentEncode(u) + rest;
    assert s[3 * |u|..] == rest;
    assert s[0] == PERCENT;
  }

  lemma ItemOfEscape(c: Byte, rest: seq<Byte>, uri: bool)
    requires c == TILDE || c == SOLIDUS
    ensures ItemOf([TILDE, if c == TILDE then ZERO else ONE] + rest, uri) == Item([c], rest)
  {
    var s := [TILDE, if c == TILDE then ZERO else ONE] + rest;
    assert s[1..][1..] == rest;
  }

  lemma ItemOfPlain(c: Byte, rest: seq<Byte>, uri: bool)
    requires c != TILDE && c != SOLIDUS && (uri ==> !NeedPercentEncode(c))
    ensures ItemOf([c] + rest, uri) == Item([c], rest)
  {
    assert ([c] + rest)[1..] == rest;
  }

  /** How many bytes of the name the first printed item stands for. */
  function HeadLength(name: seq<Byte>, uri: bool): nat
    requires name != []
  {
    if name[0] != TILDE && name[0] != SOLIDUS && uri && NeedPercentEncode(name[0]) then 1 + |TailMasks(name[0])|
    else 1
  }

  /** The printed text starts with one item, which reads back as the head of the name. */
  ghost predicate ReadsBack(name: seq<Byte>, text: seq<Byte>, tail: seq<Byte>, uri: bool)
    requires name != []
  {
    var n := HeadLength(name, uri);
    && n <= |name|
    && EscapeFor(name[n..], uri).Some?
    && !AtTokenEnd(text)
    && ItemOf(text, uri) == Item(name[..n], EscapeFor(name[n..], uri).value + tail)
  }

  lemma EscapedHead(name: seq<Byte>, tail: seq<Byte>, uri: bool)
    requires name != [] && EscapeFor(name, uri).Some?
    ensures ReadsBack(name, EscapeFor(name, uri).value + tail, tail, uri)
  {
    if name[0] == TILDE || name[0] == SOLIDUS {
      EscapedTildeHead(name, tail, uri);
    } else if uri && NeedPercentEncode(name[0]) {
      EscapedPercentHead(name, tail);
    } else {
      EscapedPlainHead(name, tail, uri);
    }
  }

  lemma EscapedTildeHead(name: seq<Byte>, tail: seq<Byte>, uri: bool)
    requires name != [] && EscapeFor(name, uri).Some? && (name[0] == TILDE || name[0] == SOLIDUS)
    ensures ReadsBack(name, EscapeFor(name, uri).value + tail, tail, uri)
  {
    var rest := EscapeFor(name[1..], uri).value;
    ItemOfEscape(name[0], rest + tail, uri);
    var head := [TILDE, if name[0] == TILDE then ZERO else ONE];
    ConcatAssoc(head, rest, tail);
    assert name[..1] == [name[0]];
  }

  lemma EscapedPercentHead(name: seq<Byte>, tail: seq<Byte>)
    requires name != [] && EscapeUri(name).Some? && name[0] != TILDE && name[0] != SOLIDUS && NeedPercentEncode(name[0])
    ensures ReadsBack(name, EscapeUri(name).value + tail, tail, true)
  {
    var u := name[..1 + |TailMasks(name[0])|];
    var rest := EscapeUri(name[|u|..]).value;
    ItemOfEncoded(u, rest + tail);
    assert EscapeUri(name).value == PercentEncode(u) + rest;
    ConcatAssoc(PercentEncode(u), rest, tail);
    assert PercentEncode(u)[0] == PERCENT;
  }

  lemma EscapedPlainHead(name: seq<Byte>, tail: seq<Byte>, uri: bool)
    requires name != [] && EscapeFor(name, uri).Some? && name[0] != TILDE && name[0] != SOLIDUS
    requires uri ==> !NeedPercentEncode(name[0])
    ensures ReadsBack(name, EscapeFor(name, uri).value + tail, tail, uri)
  {
    var rest := EscapeFor(name[1..], uri).value;
    ItemOfPlain(name[0], rest + tail, uri);
    ConcatAssoc([name[0]], rest, tail);
    assert name[..1] == [name[0]];
  }

  lemma NameOfStep(s: seq<Byte>, bytes: seq<Byte>, rest: seq<Byte>, name: seq<Byte>, tail: seq<Byte>, uri: bool)
    requires !AtTokenEnd(s) && ItemOf(s, uri) == Item(bytes, rest) && NameOf(rest, uri) == Name(name, tail)
    ensures NameOf(s, uri) == Name(bytes + name, tail)
  {
  }

  lemma {:induction false} NameOfEscaped(name: seq<Byte>, tail: seq<Byte>, uri: bool)
    requires AtTokenEnd(tail) && EscapeFor(name, uri).Some?
    ensures NameOf(EscapeFor(name, uri).value + tail, uri) == Name(name, tail)
    decreases |name|
  {
    if name == [] {
      assert EscapeFor(name, uri).value + tail == tail;
    } else {
      var n := HeadLength(name, uri);
      var head, rest := name[..n], name[n..];
      assert name == head + rest;
      EscapedHead(name, tail, uri);
      NameOfEscaped(rest, tail, uri);
      NameOfStep(EscapeFor(name, uri).value + tail, head, EscapeFor(rest, uri).value + tail, rest, tail, uri);
    }
  }

  lemma {:induction false} TokensOfText(ts: seq<Token>, uri: bool, length: nat)
    requires TokensText(ts, uri).Some? && |TokensText(ts, uri).value| <= length
    ensures AtTokenEnd(TokensText(ts, uri).value)
    ensures TokensOf(TokensText(ts, uri).value, uri, length) == Parsed(Reparsed(ts))
  {
    if ts != [] {
      var e, tail := EscapeFor(ts[0].name, uri).value, TokensText(ts[1..], uri).value;
      var t := e + tail;
      TokensOfText(ts[1..], uri, length);
      assert NameOf(t, uri) == Name(ts[0].name, tail) by {
        NameOfEscaped(ts[0].name, tail, uri);
      }
      ConcatAssoc([SOLIDUS], e, tail);
      TokensOfStep([SOLIDUS] + e + tail, t, ts[0].name, tail, uri, length);
      ReparsedCons(ts);
    }
  }

  lemma ReparsedCons(ts: seq<Token>)
    requires ts != []
    ensures Reparsed(ts) == [Token(ts[0].name, IndexOf(ts[0].name))] + Reparsed(ts[1..])
  {
  }

  lemma TokensOfStep(s: seq<Byte>, t: seq<Byte>, name: seq<Byte>, tail: seq<Byte>, uri: bool, length: nat)
    requires s == [SOLIDUS] + t && |s| <= length
    requires NameOf(t, uri) == Name(name, tail)
    ensures AtTokenEnd(tail)
    ensures TokensOf(s, uri, length) == PrependToken(Token(name, IndexOf(name)), TokensOf(tail, uri, length))
  {
    assert s[1..] == t;
  }

  lemma {:induction false} EscapeUriSucceeds(name: seq<Byte>)
    ensures EscapeUri(name).Some? <==> WellFormed(name)
    decreases |name|
  {
    if name != [] {
      var n := 1 + |TailMasks(name[0])|;
      if n <= |name| {
        EscapeUriSucceeds(name[n..]);
      }
      if name[0] < 0x80 {
        assert n == 1 && ValidUnit(name[..1]);
      }
    }
  }

  lemma {:induction false} TokensTextSucceeds(ts: seq<Token>, uri: bool)
    ensures TokensText(ts, uri).Some? <==> (uri ==> forall k | 0 <= k < |ts| :: WellFormed(ts[k].name))
  {
    if ts != [] {
      TokensTextSucceeds(ts[1..], uri);
      EscapeUriSucceeds(ts[0].name);
      assert forall k | 0 < k < |ts| :: ts[k] == ts[1..][k - 1];
      assert forall k | 0 <= k < |ts| - 1 :: ts[1..][k] == ts[k + 1];
    }
  }

  /** Round trip of both notations.  The string notation prints every pointer, the fragment notation
      exactly those with well-formed UTF-8 names; what is printed parses back to the same names, with
      the index that the parser gives to each name. */
  lemma ParseInvertsPrint(ts: seq<Token>, uri: bool)
    ensures TextOf(ts, uri).Some? <==> (uri ==> forall k | 0 <= k < |ts| :: WellFormed(ts[k].name))
    ensures TextOf(ts, uri).Some? ==> ParseOf(TextOf(ts, uri).value) == Parsed(Reparsed(ts))
  {
    TokensTextSucceeds(ts, uri);
    if TextOf(ts, uri).Some? {
      var s, body := TextOf(ts, uri).value, TokensText(ts, uri).value;
      TokensOfText(ts, uri, |s|);
      if uri {
        assert s[1..] == body;
      } else {
        assert s[0..] == body;
      }
    }
  }

  /** A pointer that the parser built comes back whole, indices included. */
  lemma ParsedPointerRoundTrip(source: seq<Byte>, uri: bool)
    requires ParseOf(source).Parsed?
    requires TextOf(ParseOf(source).tokens, uri).Some?
    ensures ParseOf(TextOf(ParseOf(source).tokens, uri).value) == ParseOf(source)
  {
    var start := if IsFragment(source) then 1 else 0;
    var ts := ParseOf(source).tokens;
    IndicesOfParsed(source[start..], IsFragment(source), |source|);
    ParseInvertsPrint(ts, uri);
    assert Reparsed(ts) == ts;
  }

  lemma {:induction false} IndicesOfParsed(s: seq<Byte>, uri: bool, length: nat)
    requires AtTokenEnd(s) && |s| <= length && TokensOf(s, uri, length).Parsed?
    ensures forall k | 0 <= k < |TokensOf(s, uri, length).tokens| ::
              TokensOf(s, uri, length).tokens[k].index == IndexOf(TokensOf(s, uri, length).tokens[k].name)
    decreases |s|
  {
    if s != [] {
      IndicesOfParsed(NameOf(s[1..], uri).rest, uri, length);
    }
  }

  // ------------------------------------------------------------------ string notation

  /** Every '~' is followed by '0' or '1' (section 3 of RFC 6901). */
  predicate EscapesOk(s: seq<Byte>) {
    forall k | 0 <= k < |s| && s[k] == TILDE :: k + 1 < |s| && (s[k + 1] == ZERO || s[k + 1] == ONE)
  }

  lemma EscapesOkTail(s: seq<Byte>)
    requires s != []
    ensures EscapesOk(s) <==>
              (s[0] == TILDE ==> |s| > 1 && (s[1] == ZERO || s[1] == ONE)) && EscapesOk(s[1..])
  {
    if EscapesOk(s) {
      forall k | 0 <= k < |s[1..]| && s[1..][k] == TILDE
        ensures k + 1 < |s[1..]| && (s[1..][k + 1] == ZERO || s[1..][k + 1] == ONE)
      {
        assert s[k + 1] == TILDE;
      }
    }
    if (s[0] == TILDE ==> |s| > 1 && (s[1] == ZERO || s[1] == ONE)) && EscapesOk(s[1..]) {
      forall k | 0 <= k < |s| && s[k] == TILDE
        ensures k + 1 < |s| && (s[k + 1] == ZERO || s[k + 1] == ONE)
      {
        if k > 0 {
          assert s[1..][k - 1] == TILDE;
        }
      }
    }
  }

  lemma ItemOfPlainText(s: seq<Byte>)
    requires !AtTokenEnd(s)
    ensures var item := ItemOf(s, false);
            && (item.BadItem? ==> !EscapesOk(s))
            && (item.Item? ==> |item.bytes| == 1 && s == Escape(item.bytes) + item.rest)
            && (item.Item? ==> (EscapesOk(s) <==> EscapesOk(item.rest)))
  {
    EscapesOkTail(s);
    if s[0] == TILDE && |s| > 1 {
      EscapesOkTail(s[1..]);
      assert s[1..][1..] == s[2..];
      assert s == [s[0], s[1]] + s[2..];
    }
    var item := ItemOf(s, false);
    if item.Item? {
      assert item.bytes[1..] == [];
    }
  }

  lemma {:induction false} NameOfPlain(s: seq<Byte>)
    ensures var r := NameOf(s, false);
            && (r.BadName? ==> !EscapesOk(s))
            && (r.Name? ==> s == Escape(r.name) + r.rest && (EscapesOk(s) <==> EscapesOk(r.rest)))
    decreases |s|
  {
    if AtTokenEnd(s) {
      assert Escape([]) + s == s;
    } else {
      ItemOfPlainText(s);
      var item := ItemOf(s, false);
      if item.Item? {
        NameOfPlain(item.rest);
        var r := NameOf(item.rest, false);
        if r.Name? {
          EscapeCons(item.bytes, r.name);
          ConcatAssoc(Escape(item.bytes), Escape(r.name), r.rest);
        }
      }
    }
  }

  lemma {:induction false} PlainEscape(u: seq<Byte>)
    requires SOLIDUS !in u && TILDE !in u
    ensures Escape(u) == u
  {
    if u != [] {
      PlainEscape(u[1..]);
    }
  }

  lemma EscapeCons(c: seq<Byte>, name: seq<Byte>)
    requires |c| == 1
    ensures Escape(c + name) == Escape(c) + Escape(name)
  {
    assert (c + name)[1..] == name && c[1..] == [];
  }

  lemma {:induction false} TokensOfPlain(s: seq<Byte>, length: nat)
    requires AtTokenEnd(s) && |s| <= length
    ensures TokensOf(s, false, length).Parsed? <==> EscapesOk(s)
    ensures TokensOf(s, false, length).Parsed? ==>
              TokensText(TokensOf(s, false, length).tokens, false) == Some(s)
    decreases |s|
  {
    if s != [] {
      EscapesOkTail(s);
      NameOfPlain(s[1..]);
      var r := NameOf(s[1..], false);
      if r.Name? {
        TokensOfPlain(r.rest, length);
        if TokensOf(r.rest, false, length).Parsed? {
          TextOfPlain(s, r.name, r.rest, TokensOf(r.rest, false, length).tokens);
        }
      }
    }
  }

  lemma TextOfPlain(s: seq<Byte>, name: seq<Byte>, rest: seq<Byte>, ts: seq<Token>)
    requires s != [] && s[0] == SOLIDUS && s[1..] == Escape(name) + rest && TokensText(ts, false) == Some(rest)
    ensures TokensText([Token(name, IndexOf(name))] + ts, false) == Some(s)
  {
    var all := [Token(name, IndexOf(name))] + ts;
    assert all[1..] == ts && s == [SOLIDUS] + s[1..];
    ConcatAssoc([SOLIDUS], Escape(name), rest);
  }

  /** The string notation is a bijection between the texts of the grammar and name lists: the parser
      accepts exactly the empty text and the texts that start with '/' and use '~' only in "~0" and
      "~1", and printing gives back every accepted text. */
  lemma StringNotation(source: seq<Byte>)
    requires !IsFragment(source)
    ensures ParseOf(source).Parsed? <==>
              source == [] || (source[0] == SOLIDUS && EscapesOk(source))
    ensures ParseOf(source).Parsed? ==> TextOf(ParseOf(source).tokens, false) == Some(source)
  {
    assert source[0..] == source;
    if AtTokenEnd(source) {
      TokensOfPlain(source, |source|);
    }
  }

  function CountSolidus(s: seq<Byte>): nat {
    if s == [] then 0 else (if s[0] == SOLIDUS then 1 else 0) + CountSolidus(s[1..])
  }

  lemma {:induction false} CountSolidusAppend(a: seq<Byte>, b: seq<Byte>)
    ensures CountSolidus(a + b) == CountSolidus(a) + CountSolidus(b)
  {
    if a == [] {
      assert a + b == b;
    } else {
      CountSolidusAppend(a[1..], b);
      assert (a + b)[1..] == a[1..] + b;
    }
  }

  lemma {:induction false} CountSolidusZero(a: seq<Byte>)
    requires SOLIDUS !in a
    ensures CountSolidus(a) == 0
  {
    if a != [] {
      CountSolidusZero(a[1..]);
    }
  }

  lemma TripletsHaveNoSolidus(s: seq<Byte>)
    requires PercentUnit(s).Some?
    ensures SOLIDUS !in s[..3 * |PercentUnit(s).value|]
  {
    forall k | 0 <= k < 3 * |PercentUnit(s).value|
      ensures s[k] != SOLIDUS
    {
      assert TripletAt(s, 3 * (k / 3)).Some?;
      assert k == 3 * (k / 3) || k == 3 * (k / 3) + 1 || k == 3 * (k / 3) + 2;
    }
  }

  /** The characters of one item contain no '/'. */
  lemma ItemHasNoSolidus(s: seq<Byte>, uri: bool)
    requires !AtTokenEnd(s) && ItemOf(s, uri).Item?
    ensures ItemOf(s, uri).rest == s[|s| - |ItemOf(s, uri).rest|..]
    ensures CountSolidus(ItemOf(s, uri).rest) == CountSolidus(s)
  {
    var rest := ItemOf(s, uri).rest;
    var n := |s| - |rest|;
    if uri && s[0] == PERCENT {
      var m := 3 * |PercentUnit(s).value|;
      TripletsHaveNoSolidus(s);
      assert rest == s[n..] && (n == m || (n == m + 1 && s[m] != SOLIDUS));
    } else {
      assert rest == s[n..] && (n == 1 || (n == 2 && s[1] != SOLIDUS));
    }
    CountSolidusZero(s[..n]);
    CountSolidusAppend(s[..n], rest);
    assert s == s[..n] + rest;
  }

  lemma {:induction false} NameHasNoSolidus(s: seq<Byte>, uri: bool)
    requires NameOf(s, uri).Name?
    ensures CountSolidus(NameOf(s, uri).rest) == CountSolidus(s)
    decreases |s|
  {
    if !AtTokenEnd(s) {
      ItemHasNoSolidus(s, uri);
      NameHasNoSolidus(ItemOf(s, uri).rest, uri);
    }
  }

  /** One token for each '/' of the source, in either notation. */
  lemma {:induction false} OneTokenPerSolidus(s: seq<Byte>, uri: bool, length: nat)
    requires AtTokenEnd(s) && |s| <= length && TokensOf(s, uri, length).Parsed?
    ensures |TokensOf(s, uri, length).tokens| == CountSolidus(s)
    decreases |s|
  {
    if s != [] {
      NameHasNoSolidus(s[1..], uri);
      OneTokenPerSolidus(NameOf(s[1..], uri).rest, uri, length);
    }
  }
}
