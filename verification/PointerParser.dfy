/** The JSON Pointer object: the in-place parser over its name buffer, and the printer. */
module PointerParser {
  import opened Encodings
  import opened Transcoding
  import opened PointerSyntax
  import opened PointerLaws

  /** A token as the object stores it: its name is a slice of the name buffer. */
  datatype TokenRef = TokenRef(start: nat, length: nat, index: nat)

  /** The slice lies in the buffer and has its terminating zero there too. */
  predicate Inside(t: TokenRef, buffer: seq<Byte>) {
    t.start + t.length < |buffer| && buffer[t.start + t.length] == 0
  }

  function Resolve(t: TokenRef, buffer: seq<Byte>): Token
    requires Inside(t, buffer)
  {
    Token(buffer[t.start..t.start + t.length], t.index)
  }

  ghost predicate Holds(refs: seq<TokenRef>, buffer: seq<Byte>, ts: seq<Token>) {
    |refs| == |ts| && forall k | 0 <= k < |refs| :: Inside(refs[k], buffer) && Resolve(refs[k], buffer) == ts[k]
  }

  class Pointer {
    var nameBuffer: array?<Byte>
    var tokens: array?<TokenRef>
    var tokenCount: nat
    var parseErrorOffset: nat
    var parseErrorCode: Option<ErrorCode>

    constructor ()
      ensures nameBuffer == null && tokens == null && tokenCount == 0 && parseErrorCode == None
    {
      nameBuffer, tokens, tokenCount, parseErrorOffset, parseErrorCode := null, null, 0, 0, None;
    }

    /** The object represents the token list `ts`. */
    ghost predicate Represents(ts: seq<Token>)
      reads this, nameBuffer, tokens
    {
      && parseErrorCode == None
      && nameBuffer != null && tokens != null
      && tokenCount == tokens.Length
      && Holds(tokens[..], nameBuffer[..], ts)
    }

    /** Parsing follows the grammar, with its error codes and offsets.  The buffer holds as many
        units as the source, and every write of the parser is inside it; on success all the token
        slots counted beforehand are filled, one for each '/'.  What lies behind the source need not be a
        zero: it is looked at only when the source is empty, and refused when it begins with a '#' that no
        '/' follows. */
    method Parse(source: seq<Byte>, behind: seq<Byte>)
      requires nameBuffer == null && tokens == null
      modifies this
      ensures match if NothingBeforeHash(source, behind) then Failed(TokenMustBeginWithSolidus, 1) else ParseOf(source)
              case Parsed(ts) => Represents(ts) && fresh(nameBuffer) && fresh(tokens)
                                 && nameBuffer.Length == |source| && tokenCount == CountSolidus(source)
              case Failed(code, offset) => parseErrorCode == Some(code) && parseErrorOffset == offset
                                           && nameBuffer == null && tokens == null && tokenCount == 0
    {
      tokenCount := CountTokens(source);
      tokens := new TokenRef[tokenCount];
      nameBuffer := new Byte[|source|];
      var i, uriFragment := 0, false;
      if At(source + behind, i) == HASH {
        uriFragment := true;
        i := i + 1;
      }
      if i != |source| && At(source + behind, i) != SOLIDUS {
        Fail(TokenMustBeginWithSolidus, i);
        return;
      }
      if i > |source| {
        assert source + behind == behind;
        parseErrorCode := None;
        return;
      }
      assert CountSolidus(source) == CountSolidus(source[i..]) by {
        assert source[0..] == source;
      }
      var error;
      error, i := ParseTokens(source, i, uriFragment, nameBuffer, tokens);
      if error.Some? {
        Fail(error.value, i);
        return;
      }
      parseErrorCode := None;
    }

    /** An empty source in front of a '#' that no '/' follows. */
    static predicate NothingBeforeHash(source: seq<Byte>, behind: seq<Byte>) {
      source == [] && At(behind, 0) == HASH && At(behind, 1) != SOLIDUS
    }

    /** The error exit: the buffers are given up and the offset is kept. */
    method Fail(code: ErrorCode, offset: nat)
      modifies this
      ensures parseErrorCode == Some(code) && parseErrorOffset == offset
      ensures nameBuffer == null && tokens == null && tokenCount == 0
    {
      parseErrorCode := Some(code);
      nameBuffer, tokens, tokenCount := null, null, 0;
      parseErrorOffset := offset;
    }

    /** Printing writes the text of the tokens, and fails exactly where that text does not exist. */
    method Stringify(uriFragment: bool, ghost ts: seq<Token>) returns (ok: bool, os: seq<Byte>)
      requires Represents(ts)
      ensures ok <==> TextOf(ts, uriFragment).Some?
      ensures ok ==> os == TextOf(ts, uriFragment).value
      ensures (if uriFragment then [HASH] else []) + Started(ts, uriFragment) <= os
    {
      os := if uriFragment then [HASH] else [];
      ghost var prefix := os;
      ghost var done: seq<Byte> := [];
      assert ts[0..] == ts;
      PrependNothing(TokensText(ts, uriFragment));
      var t := 0;
      while t != tokenCount
        invariant t <= tokenCount && os == prefix + done
        invariant TokensText(ts, uriFragment) == PrependText(done, TokensText(ts[t..], uriFragment))
        invariant Started(ts, uriFragment) == done + Started(ts[t..], uriFragment)
      {
        ghost var before := done;
        assert ts[t..][1..] == ts[t + 1..] && ts[t..][0] == ts[t];
        var name := nameBuffer[tokens[t].start..tokens[t].start + tokens[t].length];
        assert Resolve(tokens[t], nameBuffer[..]) == ts[t];
        assert name == ts[t].name;
        var text;
        ok, text := StringifyName(name, uriFragment);
        if !ok {
          StartOfSum(prefix + done, [SOLIDUS], StartedFor(name, uriFragment), text);
          ConcatAssoc(prefix, done, [SOLIDUS] + StartedFor(name, uriFragment));
          return false, os + ([SOLIDUS] + text);
        }
        ConcatAssoc(done, [SOLIDUS] + text, Started(ts[t + 1..], uriFragment));
        os := os + ([SOLIDUS] + text);
        ConcatAssoc(prefix, done, [SOLIDUS] + text);
        done := done + ([SOLIDUS] + text);
        PrependTextTwice(before, [SOLIDUS] + text, TokensText(ts[t + 1..], uriFragment));
        t := t + 1;
      }
      assert ts[t..] == [];
      PrependTextTwice(prefix, done, Some([]));
      return true, os;
    }
  }

  lemma StartOfSum(a: seq<Byte>, b: seq<Byte>, start: seq<Byte>, text: seq<Byte>)
    requires start <= text
    ensures a + (b + start) <= a + (b + text)
  {
  }

  function PrependAll(done: seq<Token>, r: ParseResult): ParseResult {
    match r
    case Parsed(tokens) => Parsed(done + tokens)
    case Failed(_, _) => r
  }

  lemma PrependNoToken(r: ParseResult)
    ensures PrependAll([], r) == r
  {
    assert r.Parsed? ==> [] + r.tokens == r.tokens;
  }

  lemma PrependAllStep(done: seq<Token>, t: Token, r: ParseResult)
    ensures PrependAll(done, PrependToken(t, r)) == PrependAll(done + [t], r)
  {
    if r.Parsed? {
      ConcatAssoc(done, [t], r.tokens);
    }
  }

  lemma PrependTextTwice(a: seq<Byte>, b: seq<Byte>, r: Option<seq<Byte>>)
    ensures PrependText(a, PrependText(b, r)) == PrependText(a + b, r)
    ensures r == Some([]) ==> PrependText(a, PrependText(b, r)) == Some(a + b)
  {
    if r.Some? {
      ConcatAssoc(a, b, r.value);
      assert r.value == [] ==> a + b + r.value == a + b;
    }
  }

  lemma PrependNothing(r: Option<seq<Byte>>)
    ensures PrependText([], r) == r
  {
    assert r.Some? ==> [] + r.value == r.value;
  }

  lemma HoldsLonger(refs: seq<TokenRef>, buffer: seq<Byte>, longer: seq<Byte>, ts: seq<Token>)
    requires Holds(refs, buffer, ts) && buffer <= longer
    ensures Holds(refs, longer, ts)
  {
    forall k | 0 <= k < |refs|
      ensures Inside(refs[k], longer) && Resolve(refs[k], longer) == ts[k]
    {
      assert Inside(refs[k], buffer) && Resolve(refs[k], buffer) == ts[k];
      var a, b := refs[k].start, refs[k].start + refs[k].length;
      assert longer[a..b] == buffer[a..b];
    }
  }

  lemma HoldsOneMore(refs: seq<TokenRef>, buffer: seq<Byte>, ts: seq<Token>, t: TokenRef, longer: seq<Byte>)
    requires Holds(refs, buffer, ts) && buffer <= longer && Inside(t, longer)
    ensures Holds(refs + [t], longer, ts + [Resolve(t, longer)])
  {
    HoldsLonger(refs, buffer, longer, ts);
  }

  /** What a run of the validator over triplets says about the unit at this place. */
  lemma PercentTaken(source: seq<Byte>, i: nat, copied: seq<Byte>, pos: nat, valid: bool)
    requires i <= |source| && |copied| > 0 && |copied| == 1 + |TailMasks(copied[0])|
    requires TakenFrom(source, true, i, true, copied, pos, valid)
    ensures valid ==> PercentUnit(source[i..]) == Some(copied) && pos == i + 3 * |copied| && pos <= |source|
    ensures !valid ==> PercentUnit(source[i..]).None?
    ensures TripletAt(source, i).None? ==> |copied| == 1
  {
    var s, n := source[i..], |copied|;
    forall k: nat
      ensures TripletAt(s, 3 * k) == TripletAt(source, i + 3 * k)
    {
      TripletShift(source, i, 3 * k);
    }
    assert TripletAt(s, 3 * 0) == TripletAt(s, 0);
    if valid {
      forall k | 0 <= k < n
        ensures TripletAt(s, 3 * k) == Some(copied[k])
      {
        assert TripletAt(source, i + 3 * k) == Some(copied[k]);
      }
      assert Triplets(s, n).Some? && Triplets(s, n).value == copied;
      assert TripletAt(s, 3 * (n - 1)).Some?;
    } else {
      var k :| 0 <= k < n && TripletAt(source, i + 3 * k).None?;
      assert TripletAt(s, 3 * k).None?;
    }
  }

  method WriteAll(buffer: array<Byte>, at: nat, bytes: seq<Byte>)
    requires at + |bytes| <= buffer.Length
    modifies buffer
    ensures buffer[..at] == old(buffer[..at]) && buffer[at..at + |bytes|] == bytes
  {
    var k := 0;
    while k < |bytes|
      invariant k <= |bytes| && buffer[..at] == old(buffer[..at]) && buffer[at..at + k] == bytes[..k]
    {
      buffer[at + k] := bytes[k];
      k := k + 1;
    }
  }

  method CountTokens(source: seq<Byte>) returns (n: nat)
    ensures n == CountSolidus(source)
  {
    n := 0;
    var s := 0;
    assert source[0..] == source;
    while s != |source|
      invariant s <= |source| && n + CountSolidus(source[s..]) == CountSolidus(source)
      decreases |source| - s
    {
      assert source[s..][1..] == source[s + 1..];
      if source[s] == SOLIDUS {
        n := n + 1;
      }
      s := s + 1;
    }
  }

  /** The token loop.  It fills the token slots from the first on, one for each '/'. */
  method ParseTokens(source: seq<Byte>, start: nat, uriFragment: bool, buffer: array<Byte>, tokens: array<TokenRef>)
    returns (error: Option<ErrorCode>, i: nat)
    requires start <= |source| && AtTokenEnd(source[start..]) && (uriFragment ==> start > 0)
    requires buffer.Length == |source| && tokens.Length == CountSolidus(source[start..])
    modifies buffer, tokens
    ensures match TokensOf(source[start..], uriFragment, |source|)
            case Failed(code, offset) => error == Some(code) && i == offset
            case Parsed(ts) => error == None && Holds(tokens[..], buffer[..], ts)
  {
    var token, name := 0, 0;
    error, i := None, start;
    ghost var refs, written, done: seq<Token> := [], [], [];
    ghost var whole := TokensOf(source[start..], uriFragment, |source|);
    PrependNoToken(whole);
    while i < |source|
      invariant start <= i <= |source| && AtTokenEnd(source[i..]) && error == None
      invariant name + (if uriFragment then 1 else 0) <= i
      invariant token + CountSolidus(source[i..]) == tokens.Length
      invariant tokens[..token] == refs && buffer[..name] == written && Holds(refs, written, done)
      invariant whole == PrependAll(done, TokensOf(source[i..], uriFragment, |source|))
    {
      var t;
      ghost var before, here := done, i;
      error, i, name, t := ParseToken(source, i, uriFragment, buffer, name);
      if error.Some? {
        assert whole == Failed(error.value, i);
        return;
      }
      ghost var now := buffer[..name];
      assert now[..|written|] == written;
      ghost var parsed := Resolve(t, now);
      HoldsOneMore(refs, written, done, t, now);
      tokens[token] := t;
      assert tokens[..token + 1] == tokens[..token] + [t];
      token := token + 1;
      refs, written, done := refs + [t], now, done + [parsed];
      PrependAllStep(before, parsed, TokensOf(source[i..], uriFragment, |source|));
    }
    AllParsed(source[i..], uriFragment, |source|, done);
    assert tokens[..token] == tokens[..];
    HoldsLonger(refs, written, buffer[..], done);
  }

  lemma AllParsed(s: seq<Byte>, uri: bool, length: nat, done: seq<Token>)
    requires s == []
    ensures PrependAll(done, TokensOf(s, uri, length)) == Parsed(done)
  {
    assert done + [] == done;
  }

  /** One token: its '/', its name with the terminating zero, and its index. */
  method ParseToken(source: seq<Byte>, start: nat, uriFragment: bool, buffer: array<Byte>, at: nat)
    returns (error: Option<ErrorCode>, i: nat, name: nat, token: TokenRef)
    requires start < |source| && source[start] == SOLIDUS && buffer.Length == |source|
    requires at + (if uriFragment then 1 else 0) <= start
    modifies buffer
    ensures start < i <= |source| && at <= name && name + (if uriFragment then 1 else 0) <= i
    ensures buffer[..at] == old(buffer[..at])
    ensures error.Some? ==> TokensOf(source[start..], uriFragment, |source|) == Failed(error.value, i)
    ensures error.None? ==>
              && AtTokenEnd(source[i..]) && CountSolidus(source[i..]) == CountSolidus(source[start..]) - 1
              && Inside(token, buffer[..name])
              && TokensOf(source[start..], uriFragment, |source|)
                 == PrependToken(Resolve(token, buffer[..name]), TokensOf(source[i..], uriFragment, |source|))
  {
    ghost var s, t := source[start..], source[start + 1..];
    error, i, name, token := ParseTokenName(source, start + 1, uriFragment, buffer, at);
    if error.Some? {
      TokenFails(s, t, uriFragment, |source|);
    } else {
      ghost var parsed := Resolve(token, buffer[..name]);
      TokenStep(s, t, parsed.name, source[i..], uriFragment, |source|);
    }
  }

  method ParseTokenName(source: seq<Byte>, start: nat, uriFragment: bool, buffer: array<Byte>, at: nat)
    returns (error: Option<ErrorCode>, i: nat, name: nat, token: TokenRef)
    requires start <= |source| && buffer.Length == |source|
    requires at + 1 + (if uriFragment then 1 else 0) <= start
    modifies buffer
    ensures start <= i <= |source| && at <= name && name + (if uriFragment then 1 else 0) <= i
    ensures buffer[..at] == old(buffer[..at])
    ensures match NameOf(source[start..], uriFragment)
            case BadName(code, rest) => error == Some(code) && i == |source| - |rest|
            case Name(n, rest) => error == None && source[i..] == rest && Inside(token, buffer[..name])
                                  && Resolve(token, buffer[..name]) == Token(n, IndexOf(n))
  {
    var isNumber;
    error, i, name, isNumber := ParseName(source, start, uriFragment, buffer, at);
    token := TokenRef(0, 0, 0);
    if error.None? {
      name, token := FinishToken(buffer, at, name, isNumber);
    }
  }

  /** The terminating zero of a name, and its index. */
  method FinishToken(buffer: array<Byte>, at: nat, end: nat, isNumber: bool) returns (next: nat, token: TokenRef)
    requires at <= end < buffer.Length && isNumber == AllDigits(buffer[at..end])
    modifies buffer
    ensures next == end + 1 && buffer[..at] == old(buffer[..at])
    ensures Inside(token, buffer[..next])
    ensures Resolve(token, buffer[..next]) == Token(old(buffer[at..end]), IndexOf(old(buffer[at..end])))
  {
    ghost var was := buffer[..];
    buffer[end] := 0;
    next := end + 1;
    ZeroBehind(was, buffer[..], at, next);
    var index := TokenIndex(buffer, at, end - at, isNumber);
    token := TokenRef(at, end - at, index);
  }

  /** A token's '/' and name, in the count of '/' and in the list of tokens. */
  lemma TokenStep(s: seq<Byte>, t: seq<Byte>, name: seq<Byte>, rest: seq<Byte>, uri: bool, length: nat)
    requires s == [SOLIDUS] + t && |s| <= length && NameOf(t, uri) == Name(name, rest)
    ensures AtTokenEnd(rest) && CountSolidus(rest) == CountSolidus(s) - 1
    ensures TokensOf(s, uri, length) == PrependToken(Token(name, IndexOf(name)), TokensOf(rest, uri, length))
  {
    assert s[1..] == t;
    NameHasNoSolidus(t, uri);
    TokensOfStep(s, t, name, rest, uri, length);
  }

  lemma TokenFails(s: seq<Byte>, t: seq<Byte>, uri: bool, length: nat)
    requires s == [SOLIDUS] + t && |s| <= length && NameOf(t, uri).BadName?
    ensures TokensOf(s, uri, length) == Failed(NameOf(t, uri).code, length - |NameOf(t, uri).rest|)
  {
    assert s[1..] == t;
  }

  /** A zero written behind a name changes neither the name nor what is before it. */
  lemma ZeroBehind(was: seq<Byte>, now: seq<Byte>, at: nat, end: nat)
    requires at < end <= |was| == |now| && now == was[end - 1 := 0]
    ensures now[..at] == was[..at] && now[at..end - 1] == was[at..end - 1]
    ensures now[..end][at..end - 1] == was[at..end - 1] && now[..end][end - 1] == 0
  {
  }

  /** The index of a name, from the digit flag that the name loop kept. */
  method TokenIndex(buffer: array<Byte>, at: nat, length: nat, digits: bool) returns (index: nat)
    requires at + length <= buffer.Length && digits == AllDigits(buffer[at..at + length])
    ensures index == IndexOf(buffer[at..at + length])
  {
    var isNumber := digits && length != 0;
    assert length > 0 ==> buffer[at] == buffer[at..at + length][0];
    if isNumber && length > 1 && buffer[at] == ZERO {
      isNumber := false;
    }
    var n := 0;
    if isNumber {
      n, isNumber := ToIndex(buffer, at, length);
    }
    index := if isNumber then n else INVALID_INDEX;
  }

  /** The characters of one name, up to the next '/' or the end.  The name lands in the buffer from
      `at` on and everything before stays; at most one unit is written for each unit read. */
  method ParseName(source: seq<Byte>, start: nat, uriFragment: bool, buffer: array<Byte>, at: nat)
    returns (error: Option<ErrorCode>, i: nat, name: nat, isNumber: bool)
    requires start <= |source| && buffer.Length == |source|
    requires at + 1 + (if uriFragment then 1 else 0) <= start
    modifies buffer
    ensures start <= i <= |source| && at <= name && name + 1 + (if uriFragment then 1 else 0) <= i
    ensures buffer[..at] == old(buffer[..at])
    ensures match NameOf(source[start..], uriFragment)
            case BadName(code, rest) => error == Some(code) && i == |source| - |rest|
            case Name(n, rest) => error == None && source[i..] == rest && buffer[at..name] == n
                                  && isNumber == AllDigits(n)
  {
    i, name, isNumber, error := start, at, true, None;
    ghost var done: seq<Byte>, whole := [], NameOf(source[start..], uriFragment);
    PrependNoBytes(whole);
    while i < |source| && source[i] != SOLIDUS
      invariant start <= i <= |source| && at <= name && name + 1 + (if uriFragment then 1 else 0) <= i
      invariant buffer[..at] == old(buffer[..at]) && buffer[at..name] == done
      invariant isNumber == AllDigits(done) && error == None
      invariant whole == Prepend(done, NameOf(source[i..], uriFragment))
      decreases |source| - i
    {
      ghost var from, was, here := name, buffer[..], source[i..];
      var digits;
      error, i, name, digits := ParseItem(source, i, uriFragment, buffer, name);
      SliceExtends(was, buffer[..], at, from, name);
      if error.Some? {
        NameStops(here, uriFragment, done);
        return;
      }
      ghost var bytes, rest := buffer[from..name], source[i..];
      NameGoesOn(here, uriFragment, done, bytes, rest);
      AllDigitsAppend(done, bytes);
      done := done + bytes;
      isNumber := isNumber && digits;
    }
    NameEnds(source[i..], uriFragment, done);
  }

  /** An item that fails, one that is read, and the end of the name, behind what is read already. */
  lemma NameStops(s: seq<Byte>, uri: bool, done: seq<Byte>)
    requires !AtTokenEnd(s) && ItemOf(s, uri).BadItem?
    ensures Prepend(done, NameOf(s, uri)) == BadName(ItemOf(s, uri).code, ItemOf(s, uri).rest)
  {
  }

  lemma NameGoesOn(s: seq<Byte>, uri: bool, done: seq<Byte>, bytes: seq<Byte>, rest: seq<Byte>)
    requires !AtTokenEnd(s) && ItemOf(s, uri) == Item(bytes, rest)
    ensures Prepend(done, NameOf(s, uri)) == Prepend(done + bytes, NameOf(rest, uri))
  {
    PrependTwice(done, bytes, NameOf(rest, uri));
  }

  lemma NameEnds(s: seq<Byte>, uri: bool, done: seq<Byte>)
    requires AtTokenEnd(s)
    ensures Prepend(done, NameOf(s, uri)) == Name(done, s)
  {
    assert done + [] == done;
  }

  lemma SliceExtends(was: seq<Byte>, now: seq<Byte>, at: nat, from: nat, to: nat)
    requires at <= from <= to <= |now| && from <= |was| && now[..from] == was[..from]
    ensures now[..at] == was[..at] && now[at..to] == was[at..from] + now[from..to]
  {
    assert now[at..from] == now[..from][at..] && was[at..from] == was[..from][at..];
    assert now[..at] == now[..from][..at] && was[..at] == was[..from][..at];
  }

  lemma PrependNoBytes(r: NameResult)
    ensures Prepend([], r) == r
  {
    assert r.Name? ==> [] + r.name == r.name;
  }

  lemma AllDigitsAppend(a: seq<Byte>, b: seq<Byte>)
    ensures AllDigits(a + b) <==> AllDigits(a) && AllDigits(b)
  {
    if AllDigits(a + b) {
      assert forall k | 0 <= k < |a| :: a[k] == (a + b)[k];
      assert forall k | 0 <= k < |b| :: b[k] == (a + b)[|a| + k];
    }
  }

  /** One character of a name: percent-decoding, then the tilde escapes. */
  method ParseItem(source: seq<Byte>, start: nat, uriFragment: bool, buffer: array<Byte>, at: nat)
    returns (error: Option<ErrorCode>, i: nat, name: nat, isNumber: bool)
    requires start < |source| && source[start] != SOLIDUS && buffer.Length == |source|
    requires at + 1 + (if uriFragment then 1 else 0) <= start
    modifies buffer
    ensures start <= i <= |source| && at <= name && name - at <= i - start
    ensures buffer[..at] == old(buffer[..at])
    ensures match ItemOf(source[start..], uriFragment)
            case BadItem(code, rest) => error == Some(code) && i == |source| - |rest|
            case Item(bytes, rest) => error == None && i > start && source[i..] == rest && buffer[at..name] == bytes
                                      && isNumber == AllDigits(bytes)
  {
    i, name, isNumber, error := start, at, true, None;
    var c := source[i];
    if uriFragment && c == PERCENT {
      error, i, name, isNumber := ParsePercent(source, i, buffer, name);
      return;
    }
    if uriFragment && NeedPercentEncode(c) {
      error := Some(CharacterMustPercentEncode);
      return;
    }
    assert source[start..][1..] == source[start + 1..];
    error, i, name, isNumber := StoreCharacter(source, i + 1, c, buffer, name);
  }

  /** A character after percent-decoding: the tilde escape, the digit test, and the store. */
  method StoreCharacter(source: seq<Byte>, start: nat, c0: Byte, buffer: array<Byte>, at: nat)
    returns (error: Option<ErrorCode>, i: nat, name: nat, isNumber: bool)
    requires start <= |source| && at < buffer.Length
    modifies buffer
    ensures start <= i <= |source| && at <= name <= at + 1
    ensures buffer[..at] == old(buffer[..at])
    ensures match Unescape(c0, source[start..])
            case BadItem(code, rest) => error == Some(code) && i == |source| - |rest|
            case Item(bytes, rest) => error == None && source[i..] == rest && buffer[at..name] == bytes
                                      && isNumber == AllDigits(bytes)
  {
    var c;
    name, isNumber := at, true;
    error, i, c := ParseEscape(source, start, c0);
    if error.Some? {
      return;
    }
    if c < ZERO || c > NINE {
      isNumber := false;
    }
    OneDigit(c);
    buffer[name] := c;
    name := name + 1;
    assert buffer[at..name] == [c];
  }

  lemma OneDigit(c: Byte)
    ensures AllDigits([c]) <==> ZERO <= c <= NINE
  {
    if AllDigits([c]) {
      assert [c][0] == c;
    }
  }

  lemma NotDigits(bytes: seq<Byte>)
    requires bytes != [] && bytes[0] >= 0x80
    ensures !AllDigits(bytes)
  {
  }

  /** "~0" is '~' and "~1" is '/'; the digit is looked for in the source as it stands. */
  method ParseEscape(source: seq<Byte>, start: nat, c0: Byte) returns (error: Option<ErrorCode>, i: nat, c: Byte)
    requires start <= |source|
    ensures start <= i <= |source|
    ensures match Unescape(c0, source[start..])
            case BadItem(code, rest) => error == Some(code) && i == |source| - |rest|
            case Item(bytes, rest) => error == None && source[i..] == rest && bytes == [c]
  {
    i, c, error := start, c0, None;
    if c == TILDE {
      if i < |source| {
        c := source[i];
        if c == ZERO {
          c := TILDE;
        } else if c == ONE {
          c := SOLIDUS;
        } else {
          error := Some(InvalidEscape);
          return;
        }
        assert source[i..][1..] == source[i + 1..];
        i := i + 1;
      } else {
        error := Some(InvalidEscape);
      }
    }
  }

  /** A unit in triplets.  The decoder writes every byte it takes, also when it then rejects them.
      A unit of one byte is a character like any other, escapes included. */
  method ParsePercent(source: seq<Byte>, start: nat, buffer: array<Byte>, at: nat)
    returns (error: Option<ErrorCode>, i: nat, name: nat, isNumber: bool)
    requires start < |source| && source[start] == PERCENT && buffer.Length == |source| && at + 2 <= start
    modifies buffer
    ensures start <= i <= |source| && at <= name && name - at <= i - start
    ensures buffer[..at] == old(buffer[..at])
    ensures match ItemOf(source[start..], true)
            case BadItem(code, rest) => error == Some(code) && i == |source| - |rest|
            case Item(bytes, rest) => error == None && i > start && source[i..] == rest && buffer[at..name] == bytes
                                      && isNumber == AllDigits(bytes)
  {
    var ok, copied, next := StorePercent(source, start, buffer, at);
    i, name, isNumber, error := start, at, true, None;
    if !ok {
      error := Some(InvalidPercentEncoding);
      return;
    }
    if |copied| != 1 {
      name := name + |copied|;
      isNumber := false;
      i := next;
      NotDigits(copied);
      return;
    }
    var c := buffer[name];
    assert buffer[at..at + 1][0] == c;
    error, i, name, isNumber := StoreCharacter(source, next, c, buffer, name);
  }

  /** The validator's bytes, stored whatever its verdict. */
  method StorePercent(source: seq<Byte>, start: nat, buffer: array<Byte>, at: nat)
    returns (ok: bool, copied: seq<Byte>, next: nat)
    requires start < |source| && source[start] == PERCENT && buffer.Length == |source| && at + 2 <= start
    modifies buffer
    ensures buffer[..at] == old(buffer[..at])
    ensures |copied| > 0 && at + |copied| <= buffer.Length && buffer[at..at + |copied|] == copied
    ensures !ok ==> ItemOf(source[start..], true) == BadItem(InvalidPercentEncoding, source[start..])
    ensures ok ==> next == start + 3 * |copied| <= |source|
    ensures ok && |copied| > 1 ==> copied[0] >= 0x80 && ItemOf(source[start..], true) == Item(copied, source[next..])
    ensures ok && |copied| == 1 ==> ItemOf(source[start..], true) == Unescape(copied[0], source[next..])
  {
    var input := new InputStream(source, start, true);
    ok, copied := Validate(input);
    PercentTaken(source, start, copied, input.pos, input.valid);
    PercentItem(source, start, copied, ok, input.pos, input.valid);
    WriteAll(buffer, at, copied);
    ok, next := ok && input.valid, input.pos;
  }

  /** The item of the grammar at a '%', from what the validator took. */
  lemma PercentItem(source: seq<Byte>, i: nat, copied: seq<Byte>, ok: bool, pos: nat, valid: bool)
    requires i < |source| && source[i] == PERCENT && |copied| > 0
    requires ok == ValidUnit(copied)
    requires valid ==> PercentUnit(source[i..]) == Some(copied) && pos == i + 3 * |copied| && pos <= |source|
    requires !valid ==> PercentUnit(source[i..]).None?
    ensures ItemOf(source[i..], true) ==
            if !ok || !valid then BadItem(InvalidPercentEncoding, source[i..])
            else if |copied| != 1 then Item(copied, source[pos..])
            else Unescape(copied[0], source[pos..])
    ensures ok && |copied| != 1 ==> copied[0] >= 0x80
  {
    if valid {
      assert source[i..][3 * |copied|..] == source[pos..];
    }
  }

  /** The conversion loop, with its overflow test. */
  method ToIndex(buffer: array<Byte>, start: nat, length: nat) returns (n: nat, isNumber: bool)
    requires start + length <= buffer.Length && AllDigits(buffer[start..start + length])
    ensures isNumber <==> Accumulate(buffer[start..start + length]).Some?
    ensures isNumber ==> n == Accumulate(buffer[start..start + length]).value
  {
    n, isNumber := 0, true;
    ghost var name := buffer[start..start + length];
    var j := 0;
    while j < length
      invariant j <= length && isNumber && Accumulate(name[..j]) == Some(n)
    {
      assert buffer[start..start + length][j] == buffer[start + j];
      var m := (n * 10 + (buffer[start + j] - ZERO) as nat) % UINT32_LIMIT;
      assert name[..j + 1][..j] == name[..j];
      if m < n {
        isNumber := false;
        StaysOverflown(name, j + 1);
        return;
      }
      n := m;
      j := j + 1;
    }
    assert name[..j] == name;
  }

  lemma {:induction false} StaysOverflown(name: seq<Byte>, k: nat)
    requires AllDigits(name) && k <= |name| && Accumulate(name[..k]).None?
    ensures Accumulate(name).None?
  {
    if k < |name| {
      assert name[..|name| - 1][..k] == name[..k];
      StaysOverflown(name[..|name| - 1], k);
    } else {
      assert name[..k] == name;
    }
  }

  /** The characters of one name, escaped. */
  method StringifyName(name: seq<Byte>, uriFragment: bool) returns (ok: bool, os: seq<Byte>)
    ensures ok <==> EscapeFor(name, uriFragment).Some?
    ensures ok ==> os == EscapeFor(name, uriFragment).value
    ensures StartedFor(name, uriFragment) <= os
  {
    os := [];
    var j := 0;
    assert name[0..] == name;
    PrependNothing(EscapeFor(name, uriFragment));
    ghost var whole := EscapeFor(name, uriFragment);
    while j < |name|
      invariant j <= |name|
      invariant whole == PrependText(os, EscapeFor(name[j..], uriFragment))
      invariant StartedFor(name, uriFragment) == os + StartedFor(name[j..], uriFragment)
    {
      var text, next;
      ok, text, next := StringifyAt(name, j, uriFragment);
      if !ok {
        return false, os + text;
      }
      PrependTextTwice(os, text, EscapeFor(name[next..], uriFragment));
      ConcatAssoc(os, text, StartedFor(name[next..], uriFragment));
      os := os + text;
      j := next;
    }
    assert name[j..] == [];
    return true, os;
  }

  /** The text of one character of a name, or of one unit of a fragment, and where the next one starts. */
  method StringifyAt(name: seq<Byte>, j: nat, uriFragment: bool) returns (ok: bool, text: seq<Byte>, next: nat)
    requires j < |name|
    ensures !ok ==> EscapeFor(name[j..], uriFragment).None? && StartedFor(name[j..], uriFragment) == []
    ensures ok ==>
              && j < next <= |name|
              && EscapeFor(name[j..], uriFragment) == PrependText(text, EscapeFor(name[next..], uriFragment))
              && StartedFor(name[j..], uriFragment) == text + StartedFor(name[next..], uriFragment)
  {
    var c := name[j];
    assert name[j..][1..] == name[j + 1..];
    if c == TILDE {
      text := [TILDE, ZERO];
    } else if c == SOLIDUS {
      text := [TILDE, ONE];
    } else if uriFragment && NeedPercentEncode(c) {
      ok, text, next := StringifyUnit(name, j);
      return;
    } else {
      text := [c];
    }
    return true, text, j + 1;
  }

  /** A unit that must be percent-encoded: validated in place, then written as triplets. */
  method StringifyUnit(name: seq<Byte>, j: nat) returns (ok: bool, text: seq<Byte>, next: nat)
    requires j < |name| && name[j] != TILDE && name[j] != SOLIDUS && NeedPercentEncode(name[j])
    ensures !ok ==> EscapeUri(name[j..]).None? && StartedUri(name[j..]) == []
    ensures ok ==> j < next <= |name|
    ensures ok ==> EscapeUri(name[j..]) == PrependText(text, EscapeUri(name[next..]))
    ensures ok ==> StartedUri(name[j..]) == text + StartedUri(name[next..])
  {
    var input := new InputStream(name, j, false);
    var copied;
    ok, copied := Validate(input);
    ghost var here := name[j..];
    next := j + |copied|;
    assert copied[0] == here[0];
    text := PercentEncoded(copied);
    if ok {
      UnitInside(name, j, j + |copied|, copied);
      assert here[..|copied|] == copied && here[|copied|..] == name[next..];
    } else if |copied| <= |here| {
      assert here[..|copied|] == copied;
    }
  }

  /** The stream that writes each unit as a %XY triplet. */
  method PercentEncoded(bytes: seq<Byte>) returns (os: seq<Byte>)
    ensures os == PercentEncode(bytes)
  {
    os := [];
    var k := 0;
    assert bytes[0..] == bytes;
    while k < |bytes|
      invariant k <= |bytes| && PercentEncode(bytes) == os + PercentEncode(bytes[k..])
    {
      var u := bytes[k];
      var triplet := [PERCENT, HexDigit(u / 16), HexDigit(u % 16)];
      assert bytes[k..][1..] == bytes[k + 1..];
      ConcatAssoc(os, triplet, PercentEncode(bytes[k + 1..]));
      os := os + triplet;
      k := k + 1;
    }
    assert bytes[k..] == [];
  }
}
