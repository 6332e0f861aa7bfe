/** The fragment notation against the string notation, and the index a name is given. */
module PointerFragments {
  import opened Encodings
  import opened Transcoding
  import opened PointerSyntax
  import opened PointerLaws

  // ------------------------------------------------------------------ what a fragment can name

  lemma UnitThenWellFormed(u: seq<Byte>, s: seq<Byte>)
    requires ValidUnit(u) && WellFormed(s)
    ensures WellFormed(u + s)
  {
    assert (u + s)[..|u|] == u && (u + s)[|u|..] == s;
    DropUnit(u + s, u);
  }

  lemma FragmentItemValid(s: seq<Byte>)
    requires !AtTokenEnd(s) && ItemOf(s, true).Item?
    ensures ValidUnit(ItemOf(s, true).bytes)
  {
    var bytes := ItemOf(s, true).bytes;
    if |bytes| == 1 {
      assert s[0] == PERCENT ==> PercentUnit(s).value[0] < 0x80;
      assert bytes[0] < 0x80;
      assert TailMasks(bytes[0]) == [];
    }
  }

  lemma {:induction false} FragmentNameWellFormed(s: seq<Byte>)
    requires NameOf(s, true).Name?
    ensures WellFormed(NameOf(s, true).name)
    decreases |s|
  {
    if !AtTokenEnd(s) {
      var item := ItemOf(s, true);
      FragmentNameWellFormed(item.rest);
      FragmentItemValid(s);
      UnitThenWellFormed(item.bytes, NameOf(item.rest, true).name);
    }
  }

  lemma {:induction false} FragmentTokensWellFormed(s: seq<Byte>, length: nat)
    requires AtTokenEnd(s) && |s| <= length && TokensOf(s, true, length).Parsed?
    ensures forall k | 0 <= k < |TokensOf(s, true, length).tokens| ::
              WellFormed(TokensOf(s, true, length).tokens[k].name)
    decreases |s|
  {
    if s != [] {
      FragmentNameWellFormed(s[1..]);
      FragmentTokensWellFormed(NameOf(s[1..], true).rest, length);
    }
  }

  /** A fragment only ever names well-formed UTF-8, so it can be printed again, and parsing what is
      printed gives the same pointer: printing normalises every accepted fragment. */
  lemma FragmentNormalForm(source: seq<Byte>)
    requires IsFragment(source) && ParseOf(source).Parsed?
    ensures TextOf(ParseOf(source).tokens, true).Some?
    ensures ParseOf(TextOf(ParseOf(source).tokens, true).value) == ParseOf(source)
  {
    var ts := ParseOf(source).tokens;
    FragmentTokensWellFormed(source[1..], |source|);
    ParseInvertsPrint(ts, true);
    ParsedPointerRoundTrip(source, true);
  }

  // ------------------------------------------------------------------ decoding first

  /** Percent-decoding of a whole text, as section 6 of RFC 6901 wants it done before anything else. */
  function PercentDecode(s: seq<Byte>): seq<Byte> {
    if s == [] then []
    else if TripletAt(s, 0).Some? then [TripletAt(s, 0).value] + PercentDecode(s[3..])
    else [s[0]] + PercentDecode(s[1..])
  }

  predicate SolidusEncodedAt(s: seq<Byte>, k: nat) {
    TripletAt(s, k) == Some(SOLIDUS)
  }

  /** The text contains "%2F" or "%2f". */
  ghost predicate EncodesSolidus(s: seq<Byte>) {
    exists k: nat :: SolidusEncodedAt(s, k)
  }

  lemma EncodesSolidusTail(s: seq<Byte>, n: nat)
    requires n == (if TripletAt(s, 0).Some? then 3 else 1) && n <= |s|
    ensures EncodesSolidus(s) <==> SolidusEncodedAt(s, 0) || EncodesSolidus(s[n..])
    ensures CountSolidus(s) == (if n == 1 && s[0] == SOLIDUS then 1 else 0) + CountSolidus(s[n..])
  {
    if EncodesSolidus(s) && !SolidusEncodedAt(s, 0) {
      var k: nat :| SolidusEncodedAt(s, k);
      assert k >= n;
      TripletShift(s, n, k - n);
      assert SolidusEncodedAt(s[n..], k - n);
    }
    if EncodesSolidus(s[n..]) {
      var k: nat :| SolidusEncodedAt(s[n..], k);
      TripletShift(s, n, k);
      assert SolidusEncodedAt(s, n + k);
    }
    if n == 3 {
      CountSolidusZero(s[..3]);
      CountSolidusAppend(s[..3], s[3..]);
      assert s == s[..3] + s[3..];
    }
  }

  lemma {:induction false} DecodedSolidusCount(s: seq<Byte>)
    ensures EncodesSolidus(s) ==> CountSolidus(PercentDecode(s)) > CountSolidus(s)
    ensures !EncodesSolidus(s) ==> CountSolidus(PercentDecode(s)) == CountSolidus(s)
  {
    if s == [] {
      assert !EncodesSolidus(s) by {
        if k: nat :| SolidusEncodedAt(s, k) {
          assert false;
        }
      }
    } else {
      var n := if TripletAt(s, 0).Some? then 3 else 1;
      EncodesSolidusTail(s, n);
      DecodedSolidusCount(s[n..]);
      var d := PercentDecode(s);
      assert d[1..] == PercentDecode(s[n..]);
    }
  }

  lemma TripletsCons(s: seq<Byte>, n: nat)
    requires n > 0 && Triplets(s, n).Some? && 3 * n <= |s|
    ensures TripletAt(s, 0).Some? && Triplets(s[3..], n - 1).Some?
    ensures Triplets(s, n).value == [TripletAt(s, 0).value] + Triplets(s[3..], n - 1).value
  {
    assert TripletAt(s, 3 * 0).Some?;
    forall k | 0 <= k < n - 1
      ensures TripletAt(s[3..], 3 * k) == TripletAt(s, 3 * (k + 1)) && TripletAt(s[3..], 3 * k).Some?
    {
      TripletShift(s, 3, 3 * k);
    }
  }

  lemma {:induction false} DecodeTriplets(s: seq<Byte>, n: nat)
    requires Triplets(s, n).Some? && 3 * n <= |s|
    ensures PercentDecode(s) == Triplets(s, n).value + PercentDecode(s[3 * n..])
  {
    if n > 0 {
      var t, rest := s[3..], s[3 * n..];
      TripletsCons(s, n);
      DecodeTriplets(t, n - 1);
      assert t[3 * (n - 1)..] == rest;
      ConcatAssoc([TripletAt(s, 0).value], Triplets(t, n - 1).value, PercentDecode(rest));
    } else {
      assert s[0..] == s;
    }
  }

  lemma {:induction false} HighBytesArePlain(u: seq<Byte>, s: seq<Byte>)
    requires forall k | 0 <= k < |u| :: u[k] >= 0x80
    ensures NameOf(u + s, false) == Prepend(u, NameOf(s, false))
  {
    if u == [] {
      assert u + s == s;
    } else {
      HighBytesArePlain(u[1..], s);
      ConcatAssoc([u[0]], u[1..], s);
      assert [u[0]] + u[1..] == u;
      PlainStep(u[0], u[1..] + s);
      PrependTwice([u[0]], u[1..], NameOf(s, false));
    }
  }

  lemma PlainStep(c: Byte, rest: seq<Byte>)
    requires c != TILDE && c != SOLIDUS
    ensures NameOf([c] + rest, false) == Prepend([c], NameOf(rest, false))
  {
    assert ([c] + rest)[1..] == rest;
  }

  lemma SuffixEncodesSolidus(s: seq<Byte>, n: nat)
    requires n <= |s|
    ensures EncodesSolidus(s[n..]) ==> EncodesSolidus(s)
  {
    if k: nat :| SolidusEncodedAt(s[n..], k) {
      TripletShift(s, n, k);
      assert SolidusEncodedAt(s, n + k);
    }
  }

  /** One item of a fragment, decoded first, is the same item of the string notation. */
  lemma ItemDecoded(s: seq<Byte>)
    requires !AtTokenEnd(s) && ItemOf(s, true).Item? && !EncodesSolidus(s)
    ensures var item := ItemOf(s, true);
            NameOf(PercentDecode(s), false) == Prepend(item.bytes, NameOf(PercentDecode(item.rest), false))
    ensures !EncodesSolidus(ItemOf(s, true).rest)
  {
    var item := ItemOf(s, true);
    ItemHasNoSolidus(s, true);
    SuffixEncodesSolidus(s, |s| - |item.rest|);
    if |item.bytes| > 1 {
      LongItemDecoded(s, item.bytes, item.rest);
    } else {
      SingleItemDecoded(s);
    }
  }

  lemma LongItemDecoded(s: seq<Byte>, bytes: seq<Byte>, rest: seq<Byte>)
    requires !AtTokenEnd(s) && ItemOf(s, true) == Item(bytes, rest) && |bytes| > 1
    ensures NameOf(PercentDecode(s), false) == Prepend(bytes, NameOf(PercentDecode(rest), false))
  {
    assert s[0] == PERCENT && PercentUnit(s) == Some(bytes) && ValidUnit(bytes);
    DecodeTriplets(s, |bytes|);
    LongUnitHigh(bytes);
    HighBytesArePlain(bytes, PercentDecode(rest));
  }

  lemma LongUnitHigh(u: seq<Byte>)
    requires ValidUnit(u) && |u| > 1
    ensures forall k | 0 <= k < |u| :: u[k] >= 0x80
  {
    TableMatchesRanges(u);
  }

  lemma SingleItemDecoded(s: seq<Byte>)
    requires !AtTokenEnd(s) && ItemOf(s, true).Item? && |ItemOf(s, true).bytes| == 1
    requires !EncodesSolidus(s)
    ensures var item := ItemOf(s, true);
            NameOf(PercentDecode(s), false) == Prepend(item.bytes, NameOf(PercentDecode(item.rest), false))
  {
    var triplet := s[0] == PERCENT;
    var c := if triplet then PercentUnit(s).value[0] else s[0];
    var rest := if triplet then s[3..] else s[1..];
    assert ItemOf(s, true) == Unescape(c, rest);
    assert triplet ==> TripletAt(s, 3 * 0) == TripletAt(s, 0) == Some(c);
    assert PercentDecode(s) == [c] + PercentDecode(rest);
    assert c != SOLIDUS by {
      if triplet {
        assert !SolidusEncodedAt(s, 0);
      }
    }
    if c == TILDE {
      assert PercentDecode(rest) == [rest[0]] + PercentDecode(rest[1..]);
    }
    UnescapeDecoded(c, rest, PercentDecode(rest));
  }

  lemma UnescapeDecoded(c: Byte, rest: seq<Byte>, decoded: seq<Byte>)
    requires c != SOLIDUS && Unescape(c, rest).Item? && decoded == PercentDecode(rest)
    requires c == TILDE ==> decoded == [rest[0]] + PercentDecode(rest[1..])
    ensures NameOf([c] + decoded, false)
         == Prepend(Unescape(c, rest).bytes, NameOf(PercentDecode(Unescape(c, rest).rest), false))
  {
    assert ([c] + decoded)[1..] == decoded;
    if c == TILDE {
      assert decoded[1..] == PercentDecode(rest[1..]);
    }
  }

  lemma {:induction false} NameDecoded(s: seq<Byte>)
    requires NameOf(s, true).Name? && !EncodesSolidus(s)
    ensures var r := NameOf(s, true);
            && NameOf(PercentDecode(s), false) == Name(r.name, PercentDecode(r.rest))
            && !EncodesSolidus(r.rest)
    decreases |s|
  {
    if !AtTokenEnd(s) {
      ItemDecoded(s);
      NameDecoded(ItemOf(s, true).rest);
    } else if s != [] {
      assert PercentDecode(s)[0] == SOLIDUS;
    }
  }

  lemma {:induction false} TokensDecoded(s: seq<Byte>, length: nat, length': nat)
    requires AtTokenEnd(s) && |s| <= length && TokensOf(s, true, length).Parsed? && !EncodesSolidus(s)
    requires |PercentDecode(s)| <= length'
    ensures AtTokenEnd(PercentDecode(s))
    ensures TokensOf(PercentDecode(s), false, length') == TokensOf(s, true, length)
    decreases |s|
  {
    if s != [] {
      var t := s[1..];
      EncodesSolidusTail(s, 1);
      NameDecoded(t);
      var r := NameOf(t, true);
      assert PercentDecode(s) == [SOLIDUS] + PercentDecode(t);
      TokensOfStep(PercentDecode(s), PercentDecode(t), r.name, PercentDecode(r.rest), false, length');
      TokensDecoded(r.rest, length, length');
    }
  }

  lemma {:induction false} DecodeShortens(s: seq<Byte>)
    ensures |PercentDecode(s)| <= |s|
  {
    if s != [] {
      DecodeShortens(s[if TripletAt(s, 0).Some? then 3 else 1..]);
    }
  }

  /** The fragment notation is meant to be the string notation, percent-encoded.  For an accepted
      fragment the parser agrees with that reading exactly when no triplet stands for '/': an encoded
      '/' stays inside the name, where decoding first would start a new token. */
  lemma AcceptedFragmentMeaning(source: seq<Byte>)
    requires IsFragment(source) && ParseOf(source).Parsed?
    ensures ParseOf(PercentDecode(source[1..])) == ParseOf(source) <==> !EncodesSolidus(source[1..])
  {
    var s := source[1..];
    var d := PercentDecode(s);
    DecodedSolidusCount(s);
    OneTokenPerSolidus(s, true, |source|);
    DecodeShortens(s);
    assert d != [] ==> d[0] == SOLIDUS;
    assert d[0..] == d;
    if !EncodesSolidus(s) {
      TokensDecoded(s, |source|, |d|);
    } else if ParseOf(d).Parsed? {
      OneTokenPerSolidus(d, false, |d|);
    }
  }

  /** "#/a%2Fb" is such a fragment: one token, where "/a/b" has two. */
  lemma EncodedSolidusExample()
    ensures var source := [HASH, SOLIDUS, 'a' as int, PERCENT, '2' as int, 'F' as int, 'b' as int];
            && ParseOf(source) == Parsed([Token(['a' as int, SOLIDUS, 'b' as int], INVALID_INDEX)])
            && EncodesSolidus(source[1..])
  {
    var source := [HASH, SOLIDUS, 'a' as int, PERCENT, '2' as int, 'F' as int, 'b' as int];
    EncodedSolidusParses(source, source[1..], source[2..], source[3..], source[6..]);
    assert EncodesSolidus(source[1..]);
  }

  lemma EncodedSolidusParses(source: seq<Byte>, r: seq<Byte>, s: seq<Byte>, t: seq<Byte>, b: seq<Byte>)
    requires b == ['b' as int] && |t| == 4 && t[0] == PERCENT && t[1] == '2' as int && t[2] == 'F' as int
    requires t[3..] == b && s == ['a' as int] + t && r == [SOLIDUS] + s && source == [HASH] + r
    ensures ParseOf(source) == Parsed([Token(['a' as int, SOLIDUS, 'b' as int], INVALID_INDEX)])
    ensures SolidusEncodedAt(r, 2)
  {
    assert r[2] == t[0] && r[3] == t[1] && r[4] == t[2];
    assert b[1..] == [] && s[1..] == t && source[1..] == r;
    assert NameOf(b, true) == Name(b, []);
    assert PercentUnit(t) == Some([SOLIDUS]) by {
      assert TripletAt(t, 3 * 0) == Some(SOLIDUS);
      assert Triplets(t, 1).value == [SOLIDUS];
    }
    var name := ['a' as int] + ([SOLIDUS] + b);
    assert ItemOf(t, true) == Item([SOLIDUS], b);
    NameOfStep(t, [SOLIDUS], b, b, [], true);
    NameOfStep(s, ['a' as int], t, [SOLIDUS] + b, [], true);
    assert name[0] == 'a' as int && IndexOf(name) == INVALID_INDEX;
    TokensOfStep(r, s, name, [], true, |source|);
    assert name == ['a' as int, SOLIDUS, 'b' as int];
  }

  // ------------------------------------------------------------------ the index of a numeral

  function DecimalValue(name: seq<Byte>): nat
    requires AllDigits(name)
  {
    if name == [] then 0
    else DecimalValue(name[..|name| - 1]) * 10 + (name[|name| - 1] - ZERO) as nat
  }

  /** The overflow test fires at digit k: the 32-bit number got smaller. */
  predicate OverflowSeenAt(name: seq<Byte>, k: nat)
    requires AllDigits(name)
  {
    k < |name| && DecimalValue(name[..k + 1]) % UINT32_LIMIT < DecimalValue(name[..k]) % UINT32_LIMIT
  }

  ghost predicate OverflowSeen(name: seq<Byte>)
    requires AllDigits(name)
  {
    exists k: nat :: OverflowSeenAt(name, k)
  }

  lemma ModularStep(v: nat, d: nat)
    ensures (v % UINT32_LIMIT * 10 + d) % UINT32_LIMIT == (v * 10 + d) % UINT32_LIMIT
  {
    var q := v / UINT32_LIMIT;
    assert v * 10 + d == (v % UINT32_LIMIT * 10 + d) + UINT32_LIMIT * (q * 10);
  }

  /** The overflow test fires in a numeral at its last digit or before. */
  lemma OverflowSeenLast(name: seq<Byte>, init: seq<Byte>, last: nat)
    requires AllDigits(name) && AllDigits(init) && |name| == last + 1 && init == name[..last]
    ensures OverflowSeen(name) <==> OverflowSeen(init) || OverflowSeenAt(name, last)
  {
    forall k: nat | k < last
      ensures OverflowSeenAt(name, k) <==> OverflowSeenAt(init, k)
    {
      assert name[..k + 1] == init[..k + 1] && name[..k] == init[..k];
    }
    if k: nat :| OverflowSeenAt(init, k) {
      assert OverflowSeenAt(name, k);
    }
    if k: nat :| OverflowSeenAt(name, k) {
      assert k < last ==> OverflowSeenAt(init, k);
    }
  }

  lemma {:induction false} AccumulateIsModular(name: seq<Byte>)
    requires AllDigits(name)
    ensures Accumulate(name).None? <==> OverflowSeen(name)
    ensures Accumulate(name).Some? ==> Accumulate(name).value == DecimalValue(name) % UINT32_LIMIT
  {
    if name != [] {
      var last := |name| - 1;
      var init := name[..last];
      AccumulateIsModular(init);
      ModularStep(DecimalValue(init), (name[last] - ZERO) as nat);
      assert name[..last + 1] == name;
      OverflowSeenLast(name, init, last);
    } else {
      assert forall k: nat :: !OverflowSeenAt(name, k);
    }
  }

  lemma {:induction false} PrefixSmaller(name: seq<Byte>, k: nat)
    requires AllDigits(name) && k <= |name|
    ensures DecimalValue(name[..k]) <= DecimalValue(name)
  {
    if k < |name| {
      var init := name[..|name| - 1];
      PrefixSmaller(init, k);
      assert init[..k] == name[..k];
    } else {
      assert name[..k] == name;
    }
  }

  /** What the documentation promises: the value where it is an index, the invalid index otherwise. */
  function DocumentedIndex(name: seq<Byte>): nat {
    if IsNumeral(name) && DecimalValue(name) < INVALID_INDEX then DecimalValue(name) else INVALID_INDEX
  }

  /** The index is the decimal value for every numeral below 2^32 - 1.  Above, the promise of an
      invalid index is kept exactly when the overflow test fires at some digit, or the value happens
      to be one less than a multiple of 2^32. */
  lemma IndexMeetsPromise(name: seq<Byte>)
    ensures IsNumeral(name) && DecimalValue(name) < INVALID_INDEX ==> IndexOf(name) == DecimalValue(name)
    ensures IndexOf(name) == DocumentedIndex(name) <==>
              || !IsNumeral(name)
              || DecimalValue(name) < UINT32_LIMIT
              || OverflowSeen(name)
              || DecimalValue(name) % UINT32_LIMIT == INVALID_INDEX
  {
    if IsNumeral(name) {
      AccumulateIsModular(name);
      if DecimalValue(name) < UINT32_LIMIT {
        NoOverflowBelow(name);
      }
    }
  }

  lemma NoWrap(a: nat, b: nat)
    requires a <= b < UINT32_LIMIT
    ensures a % UINT32_LIMIT <= b % UINT32_LIMIT
  {
  }

  lemma NoOverflowBelow(name: seq<Byte>)
    requires AllDigits(name) && DecimalValue(name) < UINT32_LIMIT
    ensures !OverflowSeen(name)
  {
    forall k: nat | k < |name|
      ensures !OverflowSeenAt(name, k)
    {
      var upTo := name[..k + 1];
      PrefixSmaller(name, k + 1);
      PrefixSmaller(upTo, k);
      assert upTo[..k] == name[..k];
      NoWrap(DecimalValue(name[..k]), DecimalValue(upTo));
    }
  }

  /** "5000000000" slips through: its index is 705032704. */
  lemma IndexWrapExample()
    ensures var name := [53, 48, 48, 48, 48, 48, 48, 48, 48, 48];
            IsNumeral(name) && DecimalValue(name) == 5_000_000_000 && IndexOf(name) == 705_032_704
  {
    FiveBillion([53, 48, 48, 48, 48, 48, 48, 48, 48, 48]);
  }

  lemma FiveBillion(name: seq<Byte>)
    requires AllDigits(name) && |name| == 10 && name[0] == 53 && forall k | 1 <= k < 10 :: name[k] == 48
    ensures IsNumeral(name) && DecimalValue(name) == 5_000_000_000 && IndexOf(name) == 705_032_704
  {
    FiveThousand(name);
    FiveMillion(name);
    LastDigits(name);
    assert name[..10] == name;
  }

  lemma LastDigits(name: seq<Byte>)
    requires AllDigits(name) && |name| == 10 && name[7] == name[8] == name[9] == 48
    requires Accumulate(name[..7]) == Some(5_000_000) && DecimalValue(name[..7]) == 5_000_000
    ensures Accumulate(name[..10]) == Some(705_032_704) && DecimalValue(name[..10]) == 5_000_000_000
  {
    AccumulateZero(name, 7, 5_000_000, 50_000_000, 50_000_000);
    AccumulateZero(name, 8, 50_000_000, 500_000_000, 500_000_000);
    AccumulateZero(name, 9, 500_000_000, 5_000_000_000, 705_032_704);
  }

  lemma FiveMillion(name: seq<Byte>)
    requires AllDigits(name) && |name| == 10 && name[4] == name[5] == name[6] == 48
    requires Accumulate(name[..4]) == Some(5_000) && DecimalValue(name[..4]) == 5_000
    ensures Accumulate(name[..7]) == Some(5_000_000) && DecimalValue(name[..7]) == 5_000_000
  {
    AccumulateZero(name, 4, 5_000, 50_000, 50_000);
    AccumulateZero(name, 5, 50_000, 500_000, 500_000);
    AccumulateZero(name, 6, 500_000, 5_000_000, 5_000_000);
  }

  lemma FiveThousand(name: seq<Byte>)
    requires AllDigits(name) && |name| == 10 && name[0] == 53 && forall k | 1 <= k < 10 :: name[k] == 48
    ensures Accumulate(name[..4]) == Some(5_000) && DecimalValue(name[..4]) == 5_000
  {
    assert name[..0] == [];
    AccumulateDigit(name, 0, 0);
    AccumulateDigit(name, 1, 5);
    AccumulateDigit(name, 2, 50);
    AccumulateDigit(name, 3, 500);
  }

  lemma AccumulateZero(name: seq<Byte>, k: nat, n: nat, value: nat, m: nat)
    requires AllDigits(name) && k < |name| && name[k] == 48 && value == n * 10 && m == value % UINT32_LIMIT && m >= n
    requires Accumulate(name[..k]) == Some(n) && DecimalValue(name[..k]) == n
    ensures Accumulate(name[..k + 1]) == Some(m) && DecimalValue(name[..k + 1]) == value
  {
    AccumulateDigit(name, k, n);
  }

  lemma AccumulateDigit(name: seq<Byte>, k: nat, n: nat)
    requires AllDigits(name) && k < |name|
    requires Accumulate(name[..k]) == Some(n) && DecimalValue(name[..k]) == n
    requires (n * 10 + (name[k] - ZERO) as nat) % UINT32_LIMIT >= n
    ensures Accumulate(name[..k + 1]) == Some((n * 10 + (name[k] - ZERO) as nat) % UINT32_LIMIT)
    ensures DecimalValue(name[..k + 1]) == n * 10 + (name[k] - ZERO) as nat
  {
    assert name[..k + 1][..k] == name[..k];
  }
}
