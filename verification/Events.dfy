/** The events that a value sends to a handler. */
module Events {
  import opened Encodings
  import opened Dom

  datatype Event =
    | ENull
    | EBool(b: bool)
    | EInt(i: Int32)
    | EUint(u: Uint32)
    | EInt64(i64: Int64)
    | EUint64(u64: Uint64)
    | EDouble(d: Float)
    | EString(chars: seq<Byte>, copy: bool)
    | EStartObject
    | EKey(chars: seq<Byte>, copy: bool)
    | EEndObject(count: nat)
    | EStartArray
    | EEndArray(count: nat)

  /** The narrowest type that the flags allow, read from the low bits of the stored number. */
  function NumberEvent(bits: Uint64, flags: Flags): Event {
    if flags.isInt then EInt(Signed(bits, TWO32))
    else if flags.isUint then EUint(bits % TWO32)
    else if flags.isInt64 then EInt64(Signed(bits, TWO64))
    else EUint64(bits)
  }

  /** Accept: all events in order.  A handler that refuses one of them gets no more. */
  function Accept(v: Value): seq<Event>
    decreases v
  {
    match v
    case Null => [ENull]
    case Bool(b) => [EBool(b)]
    case Number(bits, flags) => [NumberEvent(bits, flags)]
    case Double(d) => [EDouble(d)]
    case String(chars, copied) => [EString(chars, copied)]
    case Array(es) => [EStartArray] + (AcceptElements(es) + [EEndArray(|es|)])
    case Object(ms) => [EStartObject] + (AcceptMembers(ms) + [EEndObject(|ms|)])
  }

  function AcceptElements(es: seq<Value>): seq<Event>
    decreases es
  {
    if es == [] then [] else Accept(es[0]) + AcceptElements(es[1..])
  }

  function AcceptMembers(ms: seq<Member>): seq<Event>
    decreases ms
  {
    if ms == [] then []
    else [EKey(ms[0].name, ms[0].nameCopied)] + (Accept(ms[0].value) + AcceptMembers(ms[1..]))
  }

  /** The event of a number carries it in the first type that holds it, of 32 bits, 32 bits unsigned, 64 bits
      and 64 bits unsigned. */
  lemma NarrowestEvent(x: int)
    requires IsInteger(x)
    ensures NumberEvent(NumberOf(x).bits, NumberOf(x).flags)
            == if -0x8000_0000 <= x < 0x8000_0000 then EInt(x)
               else if 0 <= x < 0x1_0000_0000 then EUint(x)
               else if x < 0x8000_0000_0000_0000 then EInt64(x)
               else EUint64(x)
  {
    NumberEventFits(x);
  }

  /** The elements and the members send their events one after the other, in their order. */
  lemma {:induction false} AcceptAppend(es: seq<Value>, fs: seq<Value>, ms: seq<Member>, ns: seq<Member>)
    ensures AcceptElements(es + fs) == AcceptElements(es) + AcceptElements(fs)
    ensures AcceptMembers(ms + ns) == AcceptMembers(ms) + AcceptMembers(ns)
    decreases |es| + |ms|
  {
    if es == [] {
      assert es + fs == fs;
    } else {
      AcceptAppend(es[1..], fs, [], []);
      assert (es + fs)[1..] == es[1..] + fs;
      ConcatAssoc(Accept(es[0]), AcceptElements(es[1..]), AcceptElements(fs));
    }
    if ms == [] {
      assert ms + ns == ns;
    } else {
      var first := [EKey(ms[0].name, ms[0].nameCopied)] + Accept(ms[0].value);
      AcceptAppend([], [], ms[1..], ns);
      assert (ms + ns)[1..] == ms[1..] + ns;
      MemberFirst(ms);
      MemberFirst(ms + ns);
      ConcatAssoc(first, AcceptMembers(ms[1..]), AcceptMembers(ns));
    }
  }

  /** A value without children is one event, which carries it; a name is an event in front of its value's; and
      elements and members stand between the brackets, which tell their number. */
  lemma AcceptMeans(v: Value, m: Member)
    ensures v.Null? ==> Accept(v) == [ENull]
    ensures v.Bool? ==> Accept(v) == [EBool(v.b)]
    ensures v.Double? ==> Accept(v) == [EDouble(v.d)]
    ensures v.String? ==> Accept(v) == [EString(v.chars, v.copied)]
    ensures v.Array? ==> Accept(v) == [EStartArray] + AcceptElements(v.elements) + [EEndArray(|v.elements|)]
    ensures v.Object? ==> Accept(v) == [EStartObject] + AcceptMembers(v.members) + [EEndObject(|v.members|)]
    ensures AcceptElements([v]) == Accept(v) && AcceptMembers([m]) == [EKey(m.name, m.nameCopied)] + Accept(m.value)
  {
    assert Accept(v) + [] == Accept(v) && Accept(m.value) + [] == Accept(m.value);
    if v.Array? {
      ConcatAssoc([EStartArray], AcceptElements(v.elements), [EEndArray(|v.elements|)]);
    }
    if v.Object? {
      ConcatAssoc([EStartObject], AcceptMembers(v.members), [EEndObject(|v.members|)]);
    }
  }

  lemma MemberFirst(ms: seq<Member>)
    requires ms != []
    ensures AcceptMembers(ms)
            == [EKey(ms[0].name, ms[0].nameCopied)] + Accept(ms[0].value) + AcceptMembers(ms[1..])
  {
    ConcatAssoc([EKey(ms[0].name, ms[0].nameCopied)], Accept(ms[0].value), AcceptMembers(ms[1..]));
  }

  /** The event of a number is the constructor call that builds it again. */
  lemma NumberEventFits(x: int)
    requires IsInteger(x)
    ensures var e := NumberEvent(NumberOf(x).bits, NumberOf(x).flags);
            || (e.EInt? && e.i == x && FromInt(x) == NumberOf(x))
            || (e.EUint? && e.u == x && FromUint(x) == NumberOf(x))
            || (e.EInt64? && e.i64 == x && FromInt64(x) == NumberOf(x))
            || (e.EUint64? && e.u64 == x && FromUint64(x) == NumberOf(x))
  {
    if x < 0 {
      assert x % TWO64 == x + TWO64;
    }
    if -TWO31 <= x < 0 {
      assert (x + TWO64) % TWO32 == x + TWO32;
    }
  }
}
