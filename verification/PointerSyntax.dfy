/** JSON Pointer (RFC 6901): the grammar that the parser accepts, in plain string notation and as a
    URI fragment, and the printer for both notations. */
module PointerSyntax {
  import opened Encodings

  const SOLIDUS: Byte := '/' as int
  const TILDE: Byte := '~' as int
  const HASH: Byte := '#' as int
  const ZERO: Byte := '0' as int
  const ONE: Byte := '1' as int
  const NINE: Byte := '9' as int

  /** The all-ones 32-bit index that marks a token as a name only. */
  const INVALID_INDEX: nat := 0xFFFF_FFFF

  datatype Token = Token(name: seq<Byte>, index: nat)

  datatype ErrorCode =
    | TokenMustBeginWithSolidus
    | InvalidEscape
    | InvalidPercentEncoding
    | CharacterMustPercentEncode

  // ------------------------------------------------------------------ grammar
  // A position is given by the text that remains from there.

  /** One character of a name: the bytes it stands for and the text after it. */
  datatype Item = Item(bytes: seq<Byte>, rest: seq<Byte>) | BadItem(code: ErrorCode, rest: seq<Byte>)

  datatype NameResult = Name(name: seq<Byte>, rest: seq<Byte>) | BadName(code: ErrorCode, rest: seq<Byte>)

  datatype ParseResult = Parsed(tokens: seq<Token>) | Failed(code: ErrorCode, offset: nat)

  /** Everything but the unreserved characters (section 2.3 of RFC 3986). */
  predicate NeedPercentEncode(c: Byte) {
    !(ZERO <= c <= NINE || 'A' as int <= c <= 'Z' as int || 'a' as int <= c <= 'z' as int
      || c == '-' as int || c == '.' as int || c == '_' as int || c == TILDE)
  }

  /** The unreserved characters, one by one (section 2.3 of RFC 3986). */
  predicate Unreserved(c: Byte) {
    c as char in {
      'A', 'B', 'C', 'D', 'E', 'F', 'G', 'H', 'I', 'J', 'K', 'L', 'M',
      'N', 'O', 'P', 'Q', 'R', 'S', 'T', 'U', 'V', 'W', 'X', 'Y', 'Z',
      'a', 'b', 'c', 'd', 'e', 'f', 'g', 'h', 'i', 'j', 'k', 'l', 'm',
      'n', 'o', 'p', 'q', 'r', 's', 't', 'u', 'v', 'w', 'x', 'y', 'z',
      '0', '1', '2', '3', '4', '5', '6', '7', '8', '9', '-', '.', '_', '~'}
  }

  lemma UnreservedIsNotEncoded(c: Byte)
    ensures Unreserved(c) <==> !NeedPercentEncode(c)
  {
  }

  /** n triplets in a row. */
  function Triplets(s: seq<Byte>, n: nat): (r: Option<seq<Byte>>)
    ensures r.Some? ==> |r.value| == n
  {
    if forall k | 0 <= k < n :: TripletAt(s, 3 * k).Some? then
      Some(seq(n, k requires 0 <= k < n => TripletAt(s, 3 * k).value))
    else None
  }

  /** As many triplets as the lead byte in the first one asks for. */
  function PercentUnit(s: seq<Byte>): (r: Option<seq<Byte>>)
    ensures r.Some? ==> 0 < |r.value| && 3 * |r.value| <= |s|
  {
    if TripletAt(s, 0).None? then None
    else
      var n := 1 + |TailMasks(TripletAt(s, 0).value)|;
      var r := Triplets(s, n);
      assert r.Some? ==> TripletAt(s, 3 * (n - 1)).Some?;
      r
  }

  function Unescape(c: Byte, rest: seq<Byte>): (r: Item)
    ensures |r.rest| <= |rest|
  {
    if c != TILDE then Item([c], rest)
    else if rest != [] && rest[0] == ZERO then Item([TILDE], rest[1..])
    else if rest != [] && rest[0] == ONE then Item([SOLIDUS], rest[1..])
    else BadItem(InvalidEscape, rest)
  }

  function ItemOf(s: seq<Byte>, uri: bool): (r: Item)
    requires s != []
    ensures r.Item? ==> |r.rest| < |s|
    ensures |r.rest| <= |s|
  {
    if uri && s[0] == PERCENT then
      var u := PercentUnit(s);
      if u.None? || !ValidUnit(u.value) then BadItem(InvalidPercentEncoding, s)
      else if |u.value| > 1 then Item(u.value, s[3 * |u.value|..])
      else Unescape(u.value[0], s[3..])
    else if uri && NeedPercentEncode(s[0]) then BadItem(CharacterMustPercentEncode, s)
    else Unescape(s[0], s[1..])
  }

  predicate AtTokenEnd(s: seq<Byte>) {
    s == [] || s[0] == SOLIDUS
  }

  function NameOf(s: seq<Byte>, uri: bool): (r: NameResult)
    ensures r.Name? ==> AtTokenEnd(r.rest)
    ensures |r.rest| <= |s|
    decreases |s|
  {
    if AtTokenEnd(s) then Name([], s)
    else
      match ItemOf(s, uri)
      case BadItem(code, rest) => BadName(code, rest)
      case Item(bytes, rest) => Prepend(bytes, NameOf(rest, uri))
  }

  function Prepend(bytes: seq<Byte>, r: NameResult): NameResult {
    match r
    case Name(name, rest) => Name(bytes + name, rest)
    case BadName(_, _) => r
  }

  function TokensOf(s: seq<Byte>, uri: bool, length: nat): (r: ParseResult)
    requires AtTokenEnd(s) && |s| <= length
    ensures r.Failed? ==> r.offset <= length
    decreases |s|
  {
    if s == [] then Parsed([])
    else
      match NameOf(s[1..], uri)
      case BadName(code, rest) => Failed(code, length - |rest|)
      case Name(name, rest) => PrependToken(Token(name, IndexOf(name)), TokensOf(rest, uri, length))
  }

  function PrependToken(t: Token, r: ParseResult): ParseResult {
    match r
    case Parsed(tokens) => Parsed([t] + tokens)
    case Failed(_, _) => r
  }

  predicate IsFragment(s: seq<Byte>) {
    s != [] && s[0] == HASH
  }

  /** What parsing a source text yields. */
  function ParseOf(s: seq<Byte>): ParseResult {
    var start := if IsFragment(s) then 1 else 0;
    if AtTokenEnd(s[start..]) then TokensOf(s[start..], IsFragment(s), |s|)
    else Failed(TokenMustBeginWithSolidus, start)
  }

  // ------------------------------------------------------------------ index of a name

  predicate AllDigits(name: seq<Byte>) {
    forall k | 0 <= k < |name| :: ZERO <= name[k] <= NINE
  }

  /** A decimal numeral without a superfluous leading zero (section 4 of RFC 6901). */
  predicate IsNumeral(name: seq<Byte>) {
    AllDigits(name) && name != [] && !(|name| > 1 && name[0] == ZERO)
  }

  /** The conversion in 32-bit arithmetic, given up when a step makes the number smaller. */
  function Accumulate(name: seq<Byte>): (r: Option<nat>)
    requires AllDigits(name)
    ensures r.Some? ==> r.value < UINT32_LIMIT
  {
    if name == [] then Some(0)
    else
      var r := Accumulate(name[..|name| - 1]);
      if r.None? then None
      else
        var m := (r.value * 10 + (name[|name| - 1] - ZERO) as nat) % UINT32_LIMIT;
        if m < r.value then None else Some(m)
  }

  function IndexOf(name: seq<Byte>): (index: nat)
    ensures index <= INVALID_INDEX
  {
    if IsNumeral(name) && Accumulate(name).Some? then Accumulate(name).value else INVALID_INDEX
  }

  // ------------------------------------------------------------------ printing

  function Escape(name: seq<Byte>): seq<Byte> {
    if name == [] then []
    else (if name[0] == TILDE then [TILDE, ZERO] else if name[0] == SOLIDUS then [TILDE, ONE] else [name[0]])
         + Escape(name[1..])
  }

  function HexDigit(n: nat): Byte
    requires n < 16
  {
    if n < 10 then ZERO + n else 'A' as int + n - 10
  }

  function PercentEncode(bs: seq<Byte>): (r: seq<Byte>)
    ensures |r| == 3 * |bs|
  {
    if bs == [] then []
    else [PERCENT, HexDigit(bs[0] / 16), HexDigit(bs[0] % 16)] + PercentEncode(bs[1..])
  }

  function EscapeUri(name: seq<Byte>): Option<seq<Byte>>
    decreases |name|
  {
    if name == [] then Some([])
    else if name[0] == TILDE then PrependText([TILDE, ZERO], EscapeUri(name[1..]))
    else if name[0] == SOLIDUS then PrependText([TILDE, ONE], EscapeUri(name[1..]))
    else if NeedPercentEncode(name[0]) then
      var n := 1 + |TailMasks(name[0])|;
      if n <= |name| && ValidUnit(name[..n]) then PrependText(PercentEncode(name[..n]), EscapeUri(name[n..]))
      else None
    else PrependText([name[0]], EscapeUri(name[1..]))
  }

  function PrependText(text: seq<Byte>, r: Option<seq<Byte>>): Option<seq<Byte>> {
    match r
    case None => None
    case Some(rest) => Some(text + rest)
  }

  /** The text of a name in a fragment, up to its first ill-formed unit. */
  function StartedUri(name: seq<Byte>): (text: seq<Byte>)
    ensures EscapeUri(name).Some? ==> text == EscapeUri(name).value
    decreases |name|
  {
    if name == [] then []
    else if name[0] == TILDE then [TILDE, ZERO] + StartedUri(name[1..])
    else if name[0] == SOLIDUS then [TILDE, ONE] + StartedUri(name[1..])
    else if NeedPercentEncode(name[0]) then
      var n := 1 + |TailMasks(name[0])|;
      if n <= |name| && ValidUnit(name[..n]) then PercentEncode(name[..n]) + StartedUri(name[n..]) else []
    else [name[0]] + StartedUri(name[1..])
  }

  function StartedFor(name: seq<Byte>, uri: bool): seq<Byte> {
    if uri then StartedUri(name) else Escape(name)
  }

  function EscapeFor(name: seq<Byte>, uri: bool): Option<seq<Byte>> {
    if uri then EscapeUri(name) else Some(Escape(name))
  }

  function TokensText(ts: seq<Token>, uri: bool): Option<seq<Byte>> {
    if ts == [] then Some([])
    else
      match EscapeFor(ts[0].name, uri)
      case None => None
      case Some(e) => PrependText([SOLIDUS] + e, TokensText(ts[1..], uri))
  }

  /** The text of the tokens, up to the first ill-formed unit in a name. */
  function Started(ts: seq<Token>, uri: bool): (text: seq<Byte>)
    ensures TokensText(ts, uri).Some? ==> text == TokensText(ts, uri).value
  {
    if ts == [] then []
    else if EscapeFor(ts[0].name, uri).None? then [SOLIDUS] + StartedFor(ts[0].name, uri)
    else [SOLIDUS] + StartedFor(ts[0].name, uri) + Started(ts[1..], uri)
  }

  /** What printing a token list yields; only the fragment notation can fail. */
  function TextOf(ts: seq<Token>, uri: bool): Option<seq<Byte>> {
    if uri then PrependText([HASH], TokensText(ts, true)) else TokensText(ts, false)
  }
}
