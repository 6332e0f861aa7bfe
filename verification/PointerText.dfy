/** What the notations of a JSON Pointer mean, over the characters of RFC 3986 and RFC 6901 and without
    the functions that the parser and the printer are proved against. */
module PointerText {
  import opened Encodings
  import opened Transcoding
  import opened PointerSyntax
  import opened PointerLaws
  import opened PointerFragments
  import opened FragmentText

  // ------------------------------------------------------------------ hexadecimal digits

  function UpperHex(n: nat): char
    requires n < 16
  {
    match n
    case 0 => '0' case 1 => '1' case 2 => '2' case 3 => '3'
    case 4 => '4' case 5 => '5' case 6 => '6' case 7 => '7'
    case 8 => '8' case 9 => '9' case 10 => 'A' case 11 => 'B'
    case 12 => 'C' case 13 => 'D' case 14 => 'E' case 15 => 'F'
  }

  function LowerHex(n: nat): char
    requires n < 16
  {
    match n
    case 10 => 'a' case 11 => 'b' case 12 => 'c' case 13 => 'd' case 14 => 'e' case 15 => 'f'
    case _ => UpperHex(n)
  }

  predicate IsHex(c: Byte, n: nat)
    requires n < 16
  {
    c == UpperHex(n) as int || c == LowerHex(n) as int
  }

  /** A triplet (section 2.1 of RFC 3986): a percent sign and two digits of either case, the high one first. */
  predicate Spells(s: seq<Byte>, i: nat, b: Byte) {
    i + 3 <= |s| && s[i] == '%' as int && IsHex(s[i + 1], b / 16) && IsHex(s[i + 2], b % 16)
  }

  lemma TripletSpells(s: seq<Byte>, i: nat, b: Byte)
    ensures TripletAt(s, i) == Some(b) <==> Spells(s, i, b)
  {
    if i + 3 <= |s| {
      HexDigitValue(s[i + 1], b / 16);
      HexDigitValue(s[i + 2], b % 16);
      if TripletAt(s, i) == Some(b) {
        TwoDigits(HexValue(s[i + 1]).value, HexValue(s[i + 2]).value, b);
      }
    }
  }

  lemma HexDigitValue(c: Byte, n: nat)
    requires n < 16
    ensures HexValue(c) == Some(n) <==> IsHex(c, n)
  {
  }

  lemma TwoDigits(high: nat, low: nat, b: nat)
    requires low < 16 && b == high * 16 + low
    ensures high == b / 16 && low == b % 16
  {
  }

  // ------------------------------------------------------------------ printing a fragment

  /** The text with every byte but '/' and the unreserved characters in a triplet of upper-case digits. */
  function UriEncode(text: seq<Byte>): seq<Byte> {
    if text == [] then []
    else
      var c := text[0];
      (if c == '/' as int || Unreserved(c) then [c]
       else ['%' as int, UpperHex(c / 16) as int, UpperHex(c % 16) as int])
      + UriEncode(text[1..])
  }

  lemma {:induction false} UriEncodeAppend(a: seq<Byte>, b: seq<Byte>)
    ensures UriEncode(a + b) == UriEncode(a) + UriEncode(b)
  {
    if a == [] {
      assert a + b == b;
    } else {
      UriEncodeAppend(a[1..], b);
      assert (a + b)[1..] == a[1..] + b;
      ConcatAssoc(UriEncode([a[0]]), UriEncode(a[1..]), UriEncode(b));
      UriEncodeOne(a[0], a[1..]);
      UriEncodeOne(a[0], a[1..] + b);
      assert [a[0]] + a[1..] == a && [a[0]] + (a[1..] + b) == a + b;
    }
  }

  lemma UriEncodeOne(c: Byte, rest: seq<Byte>)
    ensures UriEncode([c] + rest) == UriEncode([c]) + UriEncode(rest)
  {
    assert ([c] + rest)[1..] == rest && [c][1..] == [];
    assert UriEncode([c]) + [] == UriEncode([c]);
  }

  lemma {:induction false} UriEncodeUnit(u: seq<Byte>)
    requires forall k | 0 <= k < |u| :: u[k] != SOLIDUS && NeedPercentEncode(u[k])
    ensures UriEncode(u) == PercentEncode(u)
  {
    if u != [] {
      UnreservedIsNotEncoded(u[0]);
      UriEncodeUnit(u[1..]);
    }
  }

  /** Every byte of a unit that starts with one to be encoded is to be encoded. */
  lemma UnitIsEncoded(u: seq<Byte>)
    requires ValidUnit(u) && u[0] != SOLIDUS && NeedPercentEncode(u[0])
    ensures UriEncode(u) == PercentEncode(u) && Escape(u) == u
  {
    TableMatchesRanges(u);
    PlainEscape(u);
    UriEncodeUnit(u);
  }

  lemma {:induction false} EscapeAppend(a: seq<Byte>, b: seq<Byte>)
    ensures Escape(a + b) == Escape(a) + Escape(b)
  {
    if a == [] {
      assert a + b == b;
    } else {
      EscapeAppend(a[1..], b);
      assert (a + b)[1..] == a[1..] + b;
      ConcatAssoc(Escape([a[0]]), Escape(a[1..]), Escape(b));
      EscapeOne(a[0], a[1..]);
      EscapeOne(a[0], a[1..] + b);
      assert [a[0]] + a[1..] == a && [a[0]] + (a[1..] + b) == a + b;
    }
  }

  lemma EscapeOne(c: Byte, rest: seq<Byte>)
    ensures Escape([c] + rest) == Escape([c]) + Escape(rest)
    ensures Escape([c]) == if c == TILDE then [TILDE, ZERO] else if c == SOLIDUS then [TILDE, ONE] else [c]
  {
    assert ([c] + rest)[1..] == rest && [c][1..] == [];
  }

  lemma {:induction false} NameIsEncodedText(name: seq<Byte>)
    requires EscapeUri(name).Some?
    ensures EscapeUri(name).value == UriEncode(Escape(name))
    decreases |name|
  {
    if name != [] {
      var n := HeadLength(name, true);
      var head, rest := name[..n], name[n..];
      assert name == head + rest;
      EscapeAppend(head, rest);
      UriEncodeAppend(Escape(head), Escape(rest));
      NameIsEncodedText(rest);
      HeadIsEncodedText(name, head);
    }
  }

  lemma HeadIsEncodedText(name: seq<Byte>, head: seq<Byte>)
    requires name != [] && EscapeUri(name).Some? && HeadLength(name, true) <= |name|
    requires head == name[..HeadLength(name, true)]
    ensures var rest := name[|head|..];
            EscapeUri(rest).Some? && EscapeUri(name).value == UriEncode(Escape(head)) + EscapeUri(rest).value
  {
    var c := name[0];
    if c != TILDE && c != SOLIDUS && NeedPercentEncode(c) {
      UnitIsEncoded(head);
    } else {
      assert head == [c];
      EscapeOne(c, []);
      LiteralIsEncoded(c);
    }
  }

  lemma UriEncodeLiteral(c: Byte)
    requires c == SOLIDUS || Unreserved(c)
    ensures UriEncode([c]) == [c]
  {
    assert [c][1..] == [];
  }

  /** An unreserved character or an escaped one stands for itself. */
  lemma LiteralIsEncoded(c: Byte)
    requires c == SOLIDUS || !NeedPercentEncode(c)
    ensures UriEncode([TILDE, ZERO]) == [TILDE, ZERO] && UriEncode([TILDE, ONE]) == [TILDE, ONE]
    ensures UriEncode([c]) == [c]
  {
    UnreservedIsNotEncoded(c);
    UriEncodeLiteral(c);
    UriEncodeLiteral(TILDE);
    UriEncodeLiteral(ZERO);
    UriEncodeLiteral(ONE);
    UriEncodeAppend([TILDE], [ZERO]);
    UriEncodeAppend([TILDE], [ONE]);
    assert [TILDE] + [ZERO] == [TILDE, ZERO] && [TILDE] + [ONE] == [TILDE, ONE];
  }

  lemma {:induction false} TokensAreEncodedText(ts: seq<Token>)
    requires TokensText(ts, true).Some?
    ensures TokensText(ts, false).Some?
    ensures TokensText(ts, true).value == UriEncode(TokensText(ts, false).value)
  {
    if ts != [] {
      var e, tail := Escape(ts[0].name), TokensText(ts[1..], false);
      NameIsEncodedText(ts[0].name);
      TokensAreEncodedText(ts[1..]);
      UriEncodeOne(SOLIDUS, e);
      assert UriEncode([SOLIDUS]) == [SOLIDUS] by {
        assert [SOLIDUS][1..] == [];
      }
      UriEncodeAppend([SOLIDUS] + e, tail.value);
    }
  }

  /** Section 6 of RFC 6901: a fragment is printed as a '#' and the string notation, percent-encoded byte by
      byte; only '/' and the unreserved characters stand for themselves. */
  lemma FragmentIsEncodedText(ts: seq<Token>)
    requires TextOf(ts, true).Some?
    ensures TextOf(ts, false).Some?
    ensures TextOf(ts, true).value == ['#' as int] + UriEncode(TextOf(ts, false).value)
  {
    TokensAreEncodedText(ts);
  }

  // ------------------------------------------------------------------ how the parser goes on

  lemma TripletExtends(a: seq<Byte>, b: seq<Byte>, i: nat)
    requires i + 3 <= |a|
    ensures TripletAt(a + b, i) == TripletAt(a, i)
  {
    assert (a + b)[i] == a[i] && (a + b)[i + 1] == a[i + 1] && (a + b)[i + 2] == a[i + 2];
  }

  lemma UnitExtends(a: seq<Byte>, b: seq<Byte>)
    requires PercentUnit(a).Some?
    ensures PercentUnit(a + b) == PercentUnit(a)
  {
    var u := PercentUnit(a).value;
    TripletExtends(a, b, 0);
    forall k | 0 <= k < |u|
      ensures TripletAt(a + b, 3 * k) == TripletAt(a, 3 * k) && TripletAt(a, 3 * k).Some?
    {
      TripletExtends(a, b, 3 * k);
    }
    assert Triplets(a + b, |u|).value == Triplets(a, |u|).value;
  }

  /** An item that ends inside a text is the same in a longer text. */
  lemma ItemExtends(a: seq<Byte>, b: seq<Byte>, uri: bool)
    requires !AtTokenEnd(a) && ItemOf(a, uri).Item?
    ensures !AtTokenEnd(a + b) && ItemOf(a + b, uri) == Item(ItemOf(a, uri).bytes, ItemOf(a, uri).rest + b)
  {
    assert (a + b)[0] == a[0] && (a + b)[1..] == a[1..] + b;
    if uri && a[0] == PERCENT {
      var u := PercentUnit(a).value;
      UnitExtends(a, b);
      assert (a + b)[3 * |u|..] == a[3 * |u|..] + b;
      if |u| == 1 {
        UnescapeExtends(u[0], a[3..], b);
      }
    } else {
      UnescapeExtends(a[0], a[1..], b);
    }
  }

  lemma UnescapeExtends(c: Byte, rest: seq<Byte>, b: seq<Byte>)
    requires Unescape(c, rest).Item?
    ensures Unescape(c, rest + b) == Item(Unescape(c, rest).bytes, Unescape(c, rest).rest + b)
  {
    if c == TILDE {
      assert (rest + b)[0] == rest[0] && (rest + b)[1..] == rest[1..] + b;
    }
  }

  /** A name that ends inside a text is the same in a longer text; one that reaches its end goes on. */
  lemma {:induction false} NameExtends(a: seq<Byte>, b: seq<Byte>, uri: bool)
    requires NameOf(a, uri).Name?
    ensures var r := NameOf(a, uri);
            NameOf(a + b, uri) == if r.rest != [] then Name(r.name, r.rest + b) else Prepend(r.name, NameOf(b, uri))
    decreases |a|
  {
    if a == [] {
      assert a + b == b;
      PrependNoBytes(NameOf(b, uri));
    } else if a[0] == SOLIDUS {
      assert (a + b)[0] == SOLIDUS;
    } else {
      var item := ItemOf(a, uri);
      ItemExtends(a, b, uri);
      NameExtends(item.rest, b, uri);
      PrependTwice(item.bytes, NameOf(item.rest, uri).name, NameOf(b, uri));
    }
  }

  lemma PrependNoBytes(r: NameResult)
    ensures Prepend([], r) == r
  {
    assert r.Name? ==> [] + r.name == r.name;
  }

  function Joined(ts: seq<Token>, r: ParseResult): ParseResult {
    match r
    case Parsed(us) => Parsed(ts + us)
    case Failed(_, _) => r
  }

  lemma JoinedCons(t: Token, ts: seq<Token>, r: ParseResult)
    ensures PrependToken(t, Joined(ts, r)) == Joined([t] + ts, r)
    ensures Joined([], r) == r
  {
    if r.Parsed? {
      ConcatAssoc([t], ts, r.tokens);
      assert [] + r.tokens == r.tokens;
    }
  }

  /** Two texts, the second of which starts a token: the tokens of the first, then those of the second. */
  lemma {:induction false} TokensExtend(a: seq<Byte>, b: seq<Byte>, uri: bool, length: nat)
    requires AtTokenEnd(a) && AtTokenEnd(b) && |a + b| <= length && TokensOf(a, uri, length).Parsed?
    ensures AtTokenEnd(a + b)
    ensures TokensOf(a + b, uri, length) == Joined(TokensOf(a, uri, length).tokens, TokensOf(b, uri, length))
    decreases |a|
  {
    var rb := TokensOf(b, uri, length);
    if a == [] {
      assert a + b == b;
      JoinedCons(Token([], 0), [], rb);
    } else {
      var r := NameOf(a[1..], uri);
      var t := Token(r.name, IndexOf(r.name));
      assert (a + b)[0] == a[0] && (a + b)[1..] == a[1..] + b;
      NameExtends(a[1..], b, uri);
      if r.rest == [] {
        NameAtEnd(r.name, b, uri);
        assert r.rest + b == b;
      }
      TokensExtend(r.rest, b, uri, length);
      JoinedCons(t, TokensOf(r.rest, uri, length).tokens, rb);
    }
  }

  lemma NameAtEnd(name: seq<Byte>, b: seq<Byte>, uri: bool)
    requires AtTokenEnd(b)
    ensures Prepend(name, NameOf(b, uri)) == Name(name, b)
  {
    assert name + [] == name;
  }

  /** Behind an accepted text, in the middle of its last name, a bad item is the error. */
  lemma {:induction false} TokensFail(a: seq<Byte>, b: seq<Byte>, uri: bool, length: nat)
    requires a != [] && AtTokenEnd(a) && |a + b| <= length && TokensOf(a, uri, length).Parsed?
    requires !AtTokenEnd(b) && ItemOf(b, uri).BadItem?
    ensures AtTokenEnd(a + b)
    ensures TokensOf(a + b, uri, length) == Failed(ItemOf(b, uri).code, length - |ItemOf(b, uri).rest|)
    decreases |a|
  {
    var r := NameOf(a[1..], uri);
    assert (a + b)[0] == a[0] && (a + b)[1..] == a[1..] + b;
    NameExtends(a[1..], b, uri);
    if r.rest != [] {
      TokensFail(r.rest, b, uri, length);
    }
  }

  lemma {:induction false} LengthIsForErrors(s: seq<Byte>, uri: bool, m: nat, n: nat)
    requires AtTokenEnd(s) && |s| <= m && |s| <= n && TokensOf(s, uri, m).Parsed?
    ensures TokensOf(s, uri, n) == TokensOf(s, uri, m)
    decreases |s|
  {
    if s != [] {
      LengthIsForErrors(NameOf(s[1..], uri).rest, uri, m, n);
    }
  }

  // ------------------------------------------------------------------ what is accepted

  /** Parsing concatenates: behind an accepted pointer, the text of another one adds its tokens. */
  lemma StringsConcatenate(a: seq<Byte>, b: seq<Byte>)
    requires !IsFragment(a) && !IsFragment(b) && ParseOf(a).Parsed? && ParseOf(b).Parsed?
    ensures ParseOf(a + b) == Parsed(ParseOf(a).tokens + ParseOf(b).tokens)
  {
    var all := a + b;
    assert a[0..] == a && b[0..] == b && all[0..] == all;
    Concatenates(a, b, false, |a|, |b|, |all|);
  }

  /** And so in a fragment, where the second one gives up its '#'. */
  lemma FragmentsConcatenate(a: seq<Byte>, b: seq<Byte>)
    requires IsFragment(a) && IsFragment(b) && ParseOf(a).Parsed? && ParseOf(b).Parsed?
    ensures ParseOf(a + b[1..]) == Parsed(ParseOf(a).tokens + ParseOf(b).tokens)
  {
    var all := a + b[1..];
    assert all[1..] == a[1..] + b[1..] && all[0] == HASH;
    Concatenates(a[1..], b[1..], true, |a|, |b|, |all|);
  }

  lemma Concatenates(a: seq<Byte>, b: seq<Byte>, uri: bool, m: nat, n: nat, length: nat)
    requires AtTokenEnd(a) && AtTokenEnd(b) && |a| <= m && |b| <= n && |a + b| <= length
    requires TokensOf(a, uri, m).Parsed? && TokensOf(b, uri, n).Parsed?
    ensures AtTokenEnd(a + b)
    ensures TokensOf(a + b, uri, length) == Parsed(TokensOf(a, uri, m).tokens + TokensOf(b, uri, n).tokens)
  {
    LengthIsForErrors(a, uri, m, length);
    LengthIsForErrors(b, uri, n, length);
    TokensExtend(a, b, uri, length);
  }

  lemma FragmentStart(s: seq<Byte>)
    ensures ParseOf([HASH] + s)
            == if AtTokenEnd(s) then TokensOf(s, true, |s| + 1) else Failed(TokenMustBeginWithSolidus, 1)
  {
    assert ([HASH] + s)[1..] == s;
  }

  lemma StringStart(s: seq<Byte>)
    requires !IsFragment(s)
    ensures ParseOf(s) == if AtTokenEnd(s) then TokensOf(s, false, |s|) else Failed(TokenMustBeginWithSolidus, 0)
  {
    assert s[0..] == s;
  }

  /** Every occurrence of two characters in a row replaced by one, from left to right. */
  function Replace(s: seq<Byte>, x: Byte, y: Byte, c: Byte): seq<Byte>
    decreases |s|
  {
    if |s| >= 2 && s[0] == x && s[1] == y then [c] + Replace(s[2..], x, y, c)
    else if s == [] then []
    else [s[0]] + Replace(s[1..], x, y, c)
  }

  /** Section 4 of RFC 6901: first "~1" is replaced by "/", then "~0" by "~". */
  function Unescaped(s: seq<Byte>): seq<Byte> {
    Replace(Replace(s, '~' as int, '1' as int, '/' as int), '~' as int, '0' as int, '~' as int)
  }

  lemma UnescapedStep(s: seq<Byte>)
    requires s != [] && EscapesOk(s)
    ensures s[0] == TILDE ==> |s| > 1 && Unescaped(s) == [if s[1] == ONE then SOLIDUS else TILDE] + Unescaped(s[2..])
    ensures s[0] != TILDE ==> Unescaped(s) == [s[0]] + Unescaped(s[1..])
  {
    var first := Replace(s, TILDE, ONE, SOLIDUS);
    if s[0] == TILDE && s[1] == ZERO {
      assert s[1..][1..] == s[2..];
      var rest := Replace(s[2..], TILDE, ONE, SOLIDUS);
      assert Replace(s[1..], TILDE, ONE, SOLIDUS) == [ZERO] + rest;
      assert first == [TILDE] + ([ZERO] + rest);
      assert first[2..] == rest;
    } else {
      var rest := Replace(if s[0] == TILDE then s[2..] else s[1..], TILDE, ONE, SOLIDUS);
      assert first[1..] == rest;
    }
  }

  lemma {:induction false} NameIsUnescaped(s: seq<Byte>)
    requires EscapesOk(s) && SOLIDUS !in s
    ensures NameOf(s, false) == Name(Unescaped(s), [])
    decreases |s|
  {
    if s != [] {
      EscapesOkTail(s);
      UnescapedStep(s);
      if s[0] == TILDE {
        EscapesOkTail(s[1..]);
        assert s[1..][1..] == s[2..];
        NameIsUnescaped(s[2..]);
      } else {
        NameIsUnescaped(s[1..]);
      }
    }
  }

  /** One reference token in string notation names its text with the two escapes replaced. */
  lemma OneReferenceToken(text: seq<Byte>)
    requires '/' as int !in text
    requires forall k | 0 <= k < |text| && text[k] == '~' as int ::
               k + 1 < |text| && (text[k + 1] == '0' as int || text[k + 1] == '1' as int)
    ensures ParseOf(['/' as int] + text) == Parsed([Token(Unescaped(text), IndexOf(Unescaped(text)))])
  {
    var s := [SOLIDUS] + text;
    NameIsUnescaped(text);
    assert s[0..] == s && s[1..] == text;
    TokensOfStep(s, text, Unescaped(text), [], false, |s|);
  }

  lemma {:induction false} ReplacePrefix(u: seq<Byte>, s: seq<Byte>, x: Byte, y: Byte, c: Byte)
    requires x !in u
    ensures Replace(u + s, x, y, c) == u + Replace(s, x, y, c)
  {
    if u == [] {
      assert u + s == s;
    } else {
      ReplacePrefix(u[1..], s, x, y, c);
      assert (u + s)[1..] == u[1..] + s && (u + s)[0] == u[0] != x;
      assert [u[0]] + u[1..] == u;
      ConcatAssoc([u[0]], u[1..], Replace(s, x, y, c));
    }
  }

  lemma UnescapedUnit(u: seq<Byte>, s: seq<Byte>)
    requires TILDE !in u
    ensures Unescaped(u + s) == u + Unescaped(s)
  {
    ReplacePrefix(u, s, TILDE, ONE, SOLIDUS);
    ReplacePrefix(u, Replace(s, TILDE, ONE, SOLIDUS), TILDE, ZERO, TILDE);
  }

  lemma UnescapedTilde(digit: Byte, s: seq<Byte>)
    requires digit == ZERO || digit == ONE
    ensures Unescaped([TILDE, digit] + s) == [if digit == ONE then SOLIDUS else TILDE] + Unescaped(s)
  {
    var all, first := [TILDE, digit] + s, Replace(s, TILDE, ONE, SOLIDUS);
    assert all[2..] == s && all[1..] == [digit] + s && ([digit] + s)[1..] == s;
    if digit == ONE {
      ReplacePrefix([SOLIDUS], first, TILDE, ZERO, TILDE);
    } else {
      assert Replace([digit] + s, TILDE, ONE, SOLIDUS) == [ZERO] + first;
      assert Replace(all, TILDE, ONE, SOLIDUS) == [TILDE] + ([ZERO] + first);
      assert ([TILDE] + ([ZERO] + first))[2..] == first;
    }
  }

  /** One item of a fragment stands for the head of the decoded and unescaped text. */
  lemma ItemIsUnescaped(s: seq<Byte>)
    requires !AtTokenEnd(s) && ItemOf(s, true).Item?
    ensures var item := ItemOf(s, true);
            Unescaped(PercentDecode(s)) == item.bytes + Unescaped(PercentDecode(item.rest))
  {
    var item := ItemOf(s, true);
    if s[0] == PERCENT && |PercentUnit(s).value| > 1 {
      DecodeTriplets(s, |item.bytes|);
      LongUnitHigh(item.bytes);
      UnescapedUnit(item.bytes, PercentDecode(item.rest));
    } else {
      ShortItemIsUnescaped(s);
    }
  }

  lemma ShortItemIsUnescaped(s: seq<Byte>)
    requires !AtTokenEnd(s) && ItemOf(s, true).Item? && (s[0] == PERCENT ==> |PercentUnit(s).value| == 1)
    ensures var item := ItemOf(s, true);
            Unescaped(PercentDecode(s)) == item.bytes + Unescaped(PercentDecode(item.rest))
  {
    var triplet := s[0] == PERCENT;
    var c := if triplet then PercentUnit(s).value[0] else s[0];
    var rest := if triplet then s[3..] else s[1..];
    assert triplet ==> TripletAt(s, 3 * 0) == TripletAt(s, 0) == Some(c);
    assert ItemOf(s, true) == Unescape(c, rest) && PercentDecode(s) == [c] + PercentDecode(rest);
    if c == TILDE {
      assert PercentDecode(rest) == [rest[0]] + PercentDecode(rest[1..]);
      UnescapedTilde(rest[0], PercentDecode(rest[1..]));
      assert [c] + ([rest[0]] + PercentDecode(rest[1..])) == [TILDE, rest[0]] + PercentDecode(rest[1..]);
    } else {
      UnescapedUnit([c], PercentDecode(rest));
    }
  }

  lemma {:induction false} FragmentNameIsUnescaped(s: seq<Byte>)
    requires NameOf(s, true).Name? && SOLIDUS !in s
    ensures NameOf(s, true) == Name(Unescaped(PercentDecode(s)), [])
    decreases |s|
  {
    if s != [] {
      var item := ItemOf(s, true);
      ItemHasNoSolidus(s, true);
      ItemIsUnescaped(s);
      FragmentNameIsUnescaped(item.rest);
    }
  }

  /** One reference token in a fragment: its triplets are decoded, a '/' among them too, and then the two escapes
      are replaced. */
  lemma OneFragmentReferenceToken(text: seq<Byte>)
    requires '/' as int !in text && ParseOf(['#' as int] + (['/' as int] + text)).Parsed?
    ensures var name := Unescaped(PercentDecode(text));
            ParseOf(['#' as int] + (['/' as int] + text)) == Parsed([Token(name, IndexOf(name))])
  {
    var s := [SOLIDUS] + text;
    FragmentStart(s);
    assert s[1..] == text;
    FragmentNameIsUnescaped(text);
    TokensOfStep(s, text, Unescaped(PercentDecode(text)), [], true, |s| + 1);
  }

  lemma {:induction false} UnreservedNameOf(name: seq<Byte>)
    requires forall k | 0 <= k < |name| :: Unreserved(name[k]) && name[k] != TILDE
    ensures NameOf(name, true) == Name(name, []) && UriEncode(name) == name
  {
    if name != [] {
      UnreservedIsNotEncoded(name[0]);
      UnreservedNameOf(name[1..]);
      NameOfStep(name, [name[0]], name[1..], name[1..], [], true);
    }
  }

  /** A name of unreserved characters is one token in a fragment as it stands, and is printed so. */
  lemma UnreservedName(name: seq<Byte>)
    requires forall k | 0 <= k < |name| :: Unreserved(name[k]) && name[k] != '~' as int
    ensures var source, ts := ['#' as int, '/' as int] + name, [Token(name, IndexOf(name))];
            ParseOf(source) == Parsed(ts) && TextOf(ts, true) == Some(source)
  {
    UnreservedNameOf(name);
    NamePrinted(name);
    OneFragmentToken(name, name);
  }

  lemma OneFragmentToken(name: seq<Byte>, text: seq<Byte>)
    requires NameOf(text, true) == Name(name, []) && EscapeUri(name) == Some(text)
    ensures var source, ts := [HASH, SOLIDUS] + text, [Token(name, IndexOf(name))];
            ParseOf(source) == Parsed(ts) && TextOf(ts, true) == Some(source)
  {
    var s := [SOLIDUS] + text;
    assert [HASH, SOLIDUS] + text == [HASH] + s;
    FragmentStart(s);
    TokensOfStep(s, text, name, [], true, |s| + 1);
    OneTokenPrinted(Token(name, IndexOf(name)), text);
  }

  lemma OneTokenPrinted(t: Token, text: seq<Byte>)
    requires EscapeUri(t.name) == Some(text)
    ensures TokensText([t], true) == Some([SOLIDUS] + text)
  {
    assert [t][1..] == [] && [SOLIDUS] + text + [] == [SOLIDUS] + text;
  }

  lemma {:induction false} NamePrinted(name: seq<Byte>)
    requires forall k | 0 <= k < |name| :: Unreserved(name[k]) && name[k] != TILDE
    ensures EscapeUri(name) == Some(name)
  {
    if name != [] {
      UnreservedIsNotEncoded(name[0]);
      NamePrinted(name[1..]);
      assert [name[0]] + name[1..] == name;
    }
  }

  // ------------------------------------------------------------------ what is refused, and where

  predicate SpellsAll(s: seq<Byte>, bytes: seq<Byte>) {
    forall k | 0 <= k < |bytes| :: Spells(s, 3 * k, bytes[k])
  }

  /** The characters that may follow a '~'. */
  predicate DigitAt(s: seq<Byte>, i: nat) {
    i < |s| && (s[i] == '0' as int || s[i] == '1' as int)
  }

  /** The first error in the middle of a name, behind any text that is accepted: which it is, and where. */
  lemma FirstError(a: seq<Byte>, b: seq<Byte>)
    requires ParseOf(a).Parsed? && a != [] && a != ['#' as int] && b != [] && b[0] != '/' as int
    ensures b[0] == '~' as int && !DigitAt(b, 1) ==> ParseOf(a + b) == Failed(InvalidEscape, |a| + 1)
    ensures a[0] == '#' as int && Spells(b, 0, '~' as int) && !DigitAt(b, 3) ==>
              ParseOf(a + b) == Failed(InvalidEscape, |a| + 3)
    ensures a[0] == '#' as int && b[0] == '%' as int && (forall cp: nat | IsScalar(cp) :: !SpellsAll(b, Utf8(cp))) ==>
              ParseOf(a + b) == Failed(InvalidPercentEncoding, |a|)
    ensures a[0] == '#' as int && b[0] != '%' as int && !Unreserved(b[0]) ==>
              ParseOf(a + b) == Failed(CharacterMustPercentEncode, |a|)
  {
    BadItems(b);
    BadItemFails(a, b);
  }

  lemma BadItemFails(a: seq<Byte>, b: seq<Byte>)
    requires ParseOf(a).Parsed? && a != [] && a != [HASH] && !AtTokenEnd(b)
    ensures var item := ItemOf(b, IsFragment(a));
            item.BadItem? ==> ParseOf(a + b) == Failed(item.code, |a| + |b| - |item.rest|)
  {
    var uri := IsFragment(a);
    if ItemOf(b, uri).BadItem? {
      var start := if uri then 1 else 0;
      var a', n := a[start..], |a + b|;
      assert (a + b)[start..] == a' + b && IsFragment(a + b) == uri;
      LengthIsForErrors(a', uri, |a|, n);
      TokensFail(a', b, uri, n);
    }
  }

  lemma BadItems(b: seq<Byte>)
    requires !AtTokenEnd(b)
    ensures b[0] == TILDE && !DigitAt(b, 1) ==> forall uri :: ItemOf(b, uri) == BadItem(InvalidEscape, b[1..])
    ensures Spells(b, 0, TILDE) && !DigitAt(b, 3) ==> ItemOf(b, true) == BadItem(InvalidEscape, b[3..])
    ensures b[0] == PERCENT && (forall cp: nat | IsScalar(cp) :: !SpellsAll(b, Utf8(cp))) ==>
              ItemOf(b, true) == BadItem(InvalidPercentEncoding, b)
    ensures b[0] != PERCENT && !Unreserved(b[0]) ==> ItemOf(b, true) == BadItem(CharacterMustPercentEncode, b)
  {
    UnreservedIsNotEncoded(b[0]);
    UnreservedIsNotEncoded(TILDE);
    TripletSpells(b, 0, TILDE);
    if Spells(b, 0, TILDE) {
      AsciiUnit(b, TILDE);
    }
    if b[0] == PERCENT && PercentUnit(b).Some? && ValidUnit(PercentUnit(b).value) {
      UnitIsSpelled(b);
    }
  }

  /** The triplets that the parser reads as a unit spell a scalar value. */
  lemma UnitIsSpelled(b: seq<Byte>)
    requires PercentUnit(b).Some? && ValidUnit(PercentUnit(b).value)
    ensures exists cp: nat :: IsScalar(cp) && SpellsAll(b, Utf8(cp))
  {
    var u := PercentUnit(b).value;
    ValidUnitIsEncoding(u);
    forall k | 0 <= k < |u|
      ensures Spells(b, 3 * k, u[k])
    {
      TripletSpells(b, 3 * k, u[k]);
    }
    assert SpellsAll(b, u);
  }

  /** The error at the start, and the pointers to the whole document. */
  lemma MustBeginWithSolidus(s: seq<Byte>)
    ensures s == [] || s == ['#' as int] ==> ParseOf(s) == Parsed([])
    ensures s != [] && s[0] != '#' as int && s[0] != '/' as int ==> ParseOf(s) == Failed(TokenMustBeginWithSolidus, 0)
    ensures |s| > 1 && s[0] == '#' as int && s[1] != '/' as int ==> ParseOf(s) == Failed(TokenMustBeginWithSolidus, 1)
  {
  }

  // ------------------------------------------------------------------ numerals

  /** The decimal digits of a number. */
  function Numeral(n: nat): seq<Byte> {
    if n < 10 then ['0' as int + n] else Numeral(n / 10) + ['0' as int + n % 10]
  }

  lemma {:induction false} NumeralIsNumeral(n: nat)
    ensures IsNumeral(Numeral(n)) && DecimalValue(Numeral(n)) == n && (n > 0 ==> Numeral(n)[0] != ZERO)
  {
    if n >= 10 {
      NumeralIsNumeral(n / 10);
      var name := Numeral(n);
      assert name[..|name| - 1] == Numeral(n / 10) && name[0] == Numeral(n / 10)[0];
    } else {
      assert Numeral(n)[..0] == [];
    }
  }

  lemma {:induction false} NumeralOfValue(name: seq<Byte>)
    requires IsNumeral(name)
    ensures name == Numeral(DecimalValue(name)) && (name[0] != ZERO ==> DecimalValue(name) > 0)
  {
    var init, d := name[..|name| - 1], (name[|name| - 1] - ZERO) as nat;
    if init == [] {
      assert name == [name[0]];
    } else {
      NumeralOfValue(init);
      assert init[0] == name[0] && name == init + [name[|name| - 1]];
      var v := DecimalValue(init);
      assert (v * 10 + d) / 10 == v && (v * 10 + d) % 10 == d;
    }
  }

  /** The index of a name: only the digits of a number have one, it is the number in 32 bits, and it is the
      number itself below 2^32 - 1. */
  lemma IndexOfNumeral(name: seq<Byte>, n: nat)
    ensures IndexOf(name) != 0xFFFF_FFFF ==> exists v: nat :: name == Numeral(v) && IndexOf(name) == v % 0x1_0000_0000
    ensures n < 0xFFFF_FFFF ==> IndexOf(Numeral(n)) == n
  {
    if IndexOf(name) != INVALID_INDEX {
      AccumulateIsModular(name);
      NumeralOfValue(name);
    }
    NumeralIsNumeral(n);
    IndexMeetsPromise(Numeral(n));
  }
}
