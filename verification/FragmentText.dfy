/** Which fragments the parser accepts, as a condition on their text, and how far that is the reading of
    section 6 of RFC 6901: decode the triplets first, then read the string notation. */
module FragmentText {
  import opened Encodings
  import opened Transcoding
  import opened PointerSyntax
  import opened PointerLaws
  import opened PointerFragments

  /** A byte of the decoded text, and whether it stood in a triplet. */
  datatype Symbol = Symbol(byte: Byte, encoded: bool)

  function Symbols(s: seq<Byte>): seq<Symbol> {
    if s == [] then []
    else if TripletAt(s, 0).Some? then [Symbol(TripletAt(s, 0).value, true)] + Symbols(s[3..])
    else [Symbol(s[0], false)] + Symbols(s[1..])
  }

  /** Outside triplets there are only '/' and the unreserved characters. */
  predicate LiteralsOk(cs: seq<Symbol>) {
    forall k | 0 <= k < |cs| && !cs[k].encoded :: cs[k].byte == SOLIDUS || Unreserved(cs[k].byte)
  }

  predicate EscapeDigit(c: Symbol) {
    !c.encoded && (c.byte == ZERO || c.byte == ONE)
  }

  /** Every '~', in a triplet or not, is followed by a '0' or '1' that is not in one. */
  predicate TildesOk(cs: seq<Symbol>) {
    forall k | 0 <= k < |cs| && cs[k].byte == TILDE :: k + 1 < |cs| && EscapeDigit(cs[k + 1])
  }

  predicate Acceptable(s: seq<Byte>) {
    LiteralsOk(Symbols(s)) && TildesOk(Symbols(s)) && WellFormed(PercentDecode(s))
  }

  /** The text behind the '#': empty or from a '/' on, and all its bytes acceptable. */
  predicate IsFragmentText(s: seq<Byte>) {
    AtTokenEnd(s) && Acceptable(s)
  }

  // ------------------------------------------------------------------ one symbol

  lemma LiteralsCons(c: Symbol, cs: seq<Symbol>)
    ensures LiteralsOk([c] + cs) <==>
              (!c.encoded ==> c.byte == SOLIDUS || Unreserved(c.byte)) && LiteralsOk(cs)
  {
    var all := [c] + cs;
    assert all[0] == c && forall k | 0 <= k < |cs| :: all[k + 1] == cs[k];
    if LiteralsOk(all) {
      assert forall k | 0 <= k < |cs| :: cs[k] == all[k + 1];
    }
  }

  lemma TildesCons(c: Symbol, cs: seq<Symbol>)
    ensures TildesOk([c] + cs) <==> (c.byte == TILDE ==> cs != [] && EscapeDigit(cs[0])) && TildesOk(cs)
  {
    var all := [c] + cs;
    assert all[0] == c && (cs != [] ==> all[1] == cs[0]);
    if TildesOk(all) {
      forall k | 0 <= k < |cs| && cs[k].byte == TILDE
        ensures k + 1 < |cs| && EscapeDigit(cs[k + 1])
      {
        assert all[k + 1] == cs[k] && (k + 2 < |all| ==> all[k + 2] == cs[k + 1]);
      }
    }
    if (c.byte == TILDE ==> cs != [] && EscapeDigit(cs[0])) && TildesOk(cs) {
      forall k | 0 <= k < |all| && all[k].byte == TILDE
        ensures k + 1 < |all| && EscapeDigit(all[k + 1])
      {
        if k > 0 {
          assert all[k] == cs[k - 1] && all[k + 1] == cs[k];
        }
      }
    }
  }

  lemma AsciiHead(c: Byte, d: seq<Byte>)
    requires c < 0x80
    ensures WellFormed([c] + d) <==> WellFormed(d)
  {
    assert ([c] + d)[..1] == [c] && ([c] + d)[1..] == d;
    assert InRanges([c]);
    TableMatchesRanges([c]);
    DropUnit([c] + d, [c]);
  }

  /** A symbol that decodes to an ASCII byte. */
  lemma AsciiSymbol(s: seq<Byte>, c: Symbol, rest: seq<Byte>)
    requires s != [] && Symbols(s) == [c] + Symbols(rest) && PercentDecode(s) == [c.byte] + PercentDecode(rest)
    requires c.byte < 0x80
    ensures Acceptable(s) <==>
              && (!c.encoded ==> c.byte == SOLIDUS || Unreserved(c.byte))
              && (c.byte == TILDE ==> Symbols(rest) != [] && EscapeDigit(Symbols(rest)[0]))
              && Acceptable(rest)
  {
    LiteralsCons(c, Symbols(rest));
    TildesCons(c, Symbols(rest));
    AsciiHead(c.byte, PercentDecode(rest));
  }

  lemma LiteralStep(s: seq<Byte>)
    requires s != [] && TripletAt(s, 0).None?
    ensures Acceptable(s) <==>
              && (s[0] == SOLIDUS || Unreserved(s[0]))
              && (s[0] == TILDE ==> |s| > 1 && (s[1] == ZERO || s[1] == ONE))
              && Acceptable(s[1..])
  {
    var c, rest := Symbol(s[0], false), s[1..];
    UnreservedIsNotEncoded(s[0]);
    if s[0] == SOLIDUS || Unreserved(s[0]) {
      AsciiSymbol(s, c, rest);
      NextDigit(rest);
    } else {
      LiteralsCons(c, Symbols(rest));
    }
  }

  /** The first symbol is a literal digit exactly when the first byte is one. */
  lemma NextDigit(rest: seq<Byte>)
    ensures Symbols(rest) != [] && EscapeDigit(Symbols(rest)[0]) <==>
              rest != [] && (rest[0] == ZERO || rest[0] == ONE)
  {
  }

  lemma AsciiTripletStep(s: seq<Byte>, v: Byte)
    requires TripletAt(s, 0) == Some(v) && v < 0x80
    ensures Acceptable(s) <==>
              (v == TILDE ==> |s| > 3 && (s[3] == ZERO || s[3] == ONE)) && Acceptable(s[3..])
  {
    AsciiSymbol(s, Symbol(v, true), s[3..]);
    NextDigit(s[3..]);
  }

  // ------------------------------------------------------------------ one item

  /** A character, escapes included, once its acceptability is that of the text behind it. */
  lemma UnescapeStep(c: Byte, rest: seq<Byte>)
    ensures var ok := c == TILDE ==> rest != [] && (rest[0] == ZERO || rest[0] == ONE);
            && (Unescape(c, rest).Item? <==> ok)
            && (ok ==> (Acceptable(rest) <==> Acceptable(Unescape(c, rest).rest)))
  {
    if c == TILDE && rest != [] && (rest[0] == ZERO || rest[0] == ONE) {
      LiteralStep(rest);
    }
  }

  /** Bytes of at least 0x80 in an otherwise acceptable text stand in triplets. */
  lemma {:induction false} HighAreTriplets(s: seq<Byte>, n: nat)
    requires LiteralsOk(Symbols(s)) && n <= |PercentDecode(s)|
    requires forall j | 0 <= j < n :: PercentDecode(s)[j] >= 0x80
    ensures Triplets(s, n).Some? && 3 * n <= |s|
  {
    if n > 0 {
      var d := PercentDecode(s);
      assert d[0] >= 0x80;
      if TripletAt(s, 0).None? {
        UnreservedIsNotEncoded(s[0]);
        LiteralsCons(Symbol(s[0], false), Symbols(s[1..]));
        assert false;
      }
      var t := s[3..];
      LiteralsCons(Symbol(TripletAt(s, 0).value, true), Symbols(t));
      assert d == [TripletAt(s, 0).value] + PercentDecode(t);
      assert forall j | 0 <= j < n - 1 :: PercentDecode(t)[j] == d[j + 1];
      HighAreTriplets(t, n - 1);
      forall k | 0 <= k < n
        ensures TripletAt(s, 3 * k).Some?
      {
        if k > 0 {
          TripletShift(s, 3, 3 * (k - 1));
          assert TripletAt(t, 3 * (k - 1)).Some?;
        }
      }
    }
  }

  /** Triplets of bytes other than '~' do not matter for the rest of the text. */
  lemma {:induction false} SkipTriplets(s: seq<Byte>, n: nat)
    requires Triplets(s, n).Some? && 3 * n <= |s| && TILDE !in Triplets(s, n).value
    ensures LiteralsOk(Symbols(s)) <==> LiteralsOk(Symbols(s[3 * n..]))
    ensures TildesOk(Symbols(s)) <==> TildesOk(Symbols(s[3 * n..]))
  {
    if n > 0 {
      var t := s[3..];
      TripletsCons(s, n);
      assert Triplets(s, n).value[0] == TripletAt(s, 0).value;
      var c := Symbol(TripletAt(s, 0).value, true);
      LiteralsCons(c, Symbols(t));
      TildesCons(c, Symbols(t));
      var tail := Triplets(t, n - 1).value;
      assert forall k | 0 <= k < |tail| :: tail[k] in Triplets(s, n).value;
      SkipTriplets(t, n - 1);
      assert t[3 * (n - 1)..] == s[3 * n..];
    } else {
      assert s[0..] == s;
    }
  }

  lemma HighTripletItem(s: seq<Byte>, v: Byte)
    requires TripletAt(s, 0) == Some(v) && v >= 0x80
    ensures Acceptable(s) <==> ItemOf(s, true).Item? && Acceptable(ItemOf(s, true).rest)
  {
    var n, d := 1 + |TailMasks(v)|, PercentDecode(s);
    assert d == [v] + PercentDecode(s[3..]);
    if PercentUnit(s).Some? {
      var u := PercentUnit(s).value;
      assert u[0] == v by {
        assert TripletAt(s, 3 * 0) == Some(v);
      }
      DecodeTriplets(s, n);
      assert d[..n] == u && d[n..] == PercentDecode(s[3 * n..]);
      if ValidUnit(u) {
        UnitNotAscii(u);
        LongUnitHigh(u);
        SkipTriplets(s, n);
        DropUnit(d, u);
      }
    } else if Acceptable(s) {
      assert d[0] == v && ValidUnit(d[..n]);
      UnitNotAscii(d[..n]);
      LongUnitHigh(d[..n]);
      assert forall j | 0 <= j < n :: d[j] == d[..n][j];
      HighAreTriplets(s, n);
      assert false;
    }
  }

  lemma UnitNotAscii(u: seq<Byte>)
    requires ValidUnit(u) && u[0] >= 0x80
    ensures |u| > 1
  {
    TableMatchesRanges(u);
  }

  /** The parser's item, against the condition on the text. */
  lemma ItemAcceptable(s: seq<Byte>)
    requires !AtTokenEnd(s)
    ensures Acceptable(s) <==> ItemOf(s, true).Item? && Acceptable(ItemOf(s, true).rest)
  {
    UnreservedIsNotEncoded(s[0]);
    if TripletAt(s, 0).None? {
      LiteralStep(s);
      assert s[0] == PERCENT ==> NeedPercentEncode(s[0]) && PercentUnit(s).None?;
      UnescapeStep(s[0], s[1..]);
    } else if TripletAt(s, 0).value >= 0x80 {
      HighTripletItem(s, TripletAt(s, 0).value);
    } else {
      var v := TripletAt(s, 0).value;
      AsciiTripletStep(s, v);
      AsciiUnit(s, v);
      UnescapeStep(v, s[3..]);
    }
  }

  lemma AsciiUnit(s: seq<Byte>, v: Byte)
    requires TripletAt(s, 0) == Some(v) && v < 0x80
    ensures ItemOf(s, true) == Unescape(v, s[3..])
  {
    assert TripletAt(s, 3 * 0) == Some(v);
    assert Triplets(s, 1).value == [v];
    assert PercentUnit(s) == Some([v]);
    assert InRanges([v]);
    TableMatchesRanges([v]);
  }

  // ------------------------------------------------------------------ whole texts

  lemma {:induction false} NameAcceptable(s: seq<Byte>)
    ensures Acceptable(s) <==> NameOf(s, true).Name? && Acceptable(NameOf(s, true).rest)
    decreases |s|
  {
    if !AtTokenEnd(s) {
      ItemAcceptable(s);
      if ItemOf(s, true).Item? {
        NameAcceptable(ItemOf(s, true).rest);
      }
    }
  }

  lemma {:induction false} TokensAcceptable(s: seq<Byte>, length: nat)
    requires AtTokenEnd(s) && |s| <= length
    ensures TokensOf(s, true, length).Parsed? <==> Acceptable(s)
    decreases |s|
  {
    if s != [] {
      LiteralStep(s);
      NameAcceptable(s[1..]);
      if NameOf(s[1..], true).Name? {
        TokensAcceptable(NameOf(s[1..], true).rest, length);
      }
    }
  }

  /** The fragment notation: the parser accepts a fragment exactly when the text behind its '#' is empty
      or starts with a '/', has only '/', unreserved characters and whole triplets, decodes to
      well-formed UTF-8, and follows every '~', encoded or not, by a literal '0' or '1'. */
  lemma FragmentNotation(source: seq<Byte>)
    requires IsFragment(source)
    ensures ParseOf(source).Parsed? <==> IsFragmentText(source[1..])
  {
    if AtTokenEnd(source[1..]) {
      TokensAcceptable(source[1..], |source|);
    }
  }

  // ------------------------------------------------------------------ against decoding first

  function Tokens(r: ParseResult): Option<seq<Token>> {
    match r
    case Parsed(ts) => Some(ts)
    case Failed(_, _) => None
  }

  /** The tokens of a text in string notation, if it is one. */
  function StringTokens(d: seq<Byte>): Option<seq<Token>> {
    if AtTokenEnd(d) then Tokens(TokensOf(d, false, |d|)) else None
  }

  /** For every fragment.  It is accepted with the tokens of its decoded text exactly when it satisfies
      the condition above and no triplet stands for '/'.  Counting common rejections as agreement, the
      parser agrees with decoding first exactly when the condition holds and no triplet stands for '/',
      or neither the condition holds nor is the decoded text in string notation. */
  lemma FragmentMeansDecodedText(source: seq<Byte>)
    requires IsFragment(source)
    ensures var s, d := source[1..], PercentDecode(source[1..]);
            && (ParseOf(source).Parsed? && Tokens(ParseOf(source)) == StringTokens(d)
                <==> IsFragmentText(s) && !EncodesSolidus(s))
            && (Tokens(ParseOf(source)) == StringTokens(d) <==>
                  if IsFragmentText(s) then !EncodesSolidus(s) else !(AtTokenEnd(d) && EscapesOk(d)))
  {
    var s, d := source[1..], PercentDecode(source[1..]);
    FragmentNotation(source);
    if IsFragmentText(s) {
      AcceptedFragmentMeaning(source);
      DecodedStart(s);
      assert d[0..] == d;
    } else if AtTokenEnd(d) {
      TokensOfPlain(d, |d|);
    }
  }

  lemma DecodedStart(s: seq<Byte>)
    requires AtTokenEnd(s)
    ensures AtTokenEnd(PercentDecode(s)) && !IsFragment(PercentDecode(s))
  {
  }

  /** The text of one name. */
  lemma OneName(name: seq<Byte>, text: seq<Byte>)
    requires Escape(name) == text
    ensures StringTokens([SOLIDUS] + text) == Some([Token(name, IndexOf(name))])
  {
    var ts, d := [Token(name, IndexOf(name))], [SOLIDUS] + text;
    assert ts[1..] == [] && d + [] == d && d[0..] == d;
    assert TokensText(ts, false) == Some(d);
    ParseInvertsPrint(ts, false);
    assert Reparsed(ts) == ts;
  }

  /** "#/a:b" is refused, because ':' stands outside a triplet, but "/a:b" is in string notation. */
  lemma LiteralColonExample()
    ensures var name := ['a' as int, ':' as int, 'b' as int];
            var source := [HASH, SOLIDUS] + name;
            && ParseOf(source).Failed?
            && StringTokens(PercentDecode(source[1..])) == Some([Token(name, INVALID_INDEX)])
  {
    var name: seq<Byte> := ['a' as int, ':' as int, 'b' as int];
    LiteralColon([HASH, SOLIDUS] + name, [SOLIDUS] + name, name, name[1..], name[2..]);
  }

  lemma LiteralColon(source: seq<Byte>, s: seq<Byte>, name: seq<Byte>, t: seq<Byte>, b: seq<Byte>)
    requires b == ['b' as int] && t == [':' as int] + b && name == ['a' as int] + t
    requires s == [SOLIDUS] + name && source == [HASH] + s
    ensures ParseOf(source).Failed? && StringTokens(PercentDecode(s)) == Some([Token(name, INVALID_INDEX)])
    ensures source[1..] == s
  {
    assert source[1..] == s && t[1..] == b;
    LiteralStep(t);
    StillRefused('a' as int, t);
    StillRefused(SOLIDUS, name);
    FragmentNotation(source);
    DecodedColon(name, t, b);
  }

  lemma StillRefused(c: Byte, rest: seq<Byte>)
    requires c != PERCENT && !Acceptable(rest)
    ensures !Acceptable([c] + rest)
  {
    assert ([c] + rest)[1..] == rest;
    LiteralStep([c] + rest);
  }

  lemma DecodedColon(name: seq<Byte>, t: seq<Byte>, b: seq<Byte>)
    requires b == ['b' as int] && t == [':' as int] + b && name == ['a' as int] + t
    ensures PercentDecode([SOLIDUS] + name) == [SOLIDUS] + name
    ensures StringTokens([SOLIDUS] + name) == Some([Token(name, INVALID_INDEX)])
  {
    assert ([SOLIDUS] + name)[1..] == name && name[1..] == t && t[1..] == b && b[1..] == [];
    assert PercentDecode(b) == b && PercentDecode(t) == t && PercentDecode(name) == name;
    PlainEscape(name);
    assert name[0] == 'a' as int && IndexOf(name) == INVALID_INDEX;
    OneName(name, name);
  }

  /** "#/%7E%31" is refused, because the escape digit is read undecoded, but "/~1" names "/". */
  lemma EncodedEscapeExample()
    ensures var source := [HASH, SOLIDUS, PERCENT, '7' as int, 'E' as int, PERCENT, '3' as int, '1' as int];
            && ParseOf(source).Failed?
            && StringTokens(PercentDecode(source[1..])) == Some([Token([SOLIDUS], INVALID_INDEX)])
  {
    var source: seq<Byte> := [HASH, SOLIDUS, PERCENT, '7' as int, 'E' as int, PERCENT, '3' as int, '1' as int];
    EncodedEscape(source, source[1..], source[2..], source[5..]);
  }

  lemma EncodedEscape(source: seq<Byte>, s: seq<Byte>, t: seq<Byte>, u: seq<Byte>)
    requires u == [PERCENT, '3' as int, '1' as int] && t == [PERCENT, '7' as int, 'E' as int] + u
    requires s == [SOLIDUS] + t && source == [HASH] + s
    ensures ParseOf(source).Failed? && StringTokens(PercentDecode(s)) == Some([Token([SOLIDUS], INVALID_INDEX)])
  {
    assert source[1..] == s && s[1..] == t && t[3..] == u && u[3..] == [];
    LiteralStep(s);
    AsciiTripletStep(t, TILDE);
    FragmentNotation(source);
    assert PercentDecode(u) == [ONE] && PercentDecode(t) == [TILDE, ONE];
    assert PercentDecode(s) == [SOLIDUS] + [TILDE, ONE];
    assert Escape([SOLIDUS]) == [TILDE, ONE];
    OneName([SOLIDUS], [TILDE, ONE]);
  }
}
