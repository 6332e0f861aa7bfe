/** The document as an event handler: a stack machine that builds a tree from events. */
module Rebuild {
  import opened Encodings
  import opened Dom
  import opened Events

  /** The handler's effect on its stack; nothing where one of its assertions fails. */
  function Step(stack: seq<Value>, e: Event): Option<seq<Value>> {
    match e
    case ENull => Some(stack + [Null])
    case EBool(b) => Some(stack + [Bool(b)])
    case EInt(i) => Some(stack + [FromInt(i)])
    case EUint(u) => Some(stack + [FromUint(u)])
    case EInt64(i) => Some(stack + [FromInt64(i)])
    case EUint64(u) => Some(stack + [FromUint64(u)])
    case EDouble(d) => Some(stack + [Double(d)])
    case EString(chars, copy) => Some(stack + [String(chars, copy)])
    case EKey(chars, copy) => Some(stack + [String(chars, copy)])
    case EStartObject => Some(stack + [Object([])])
    case EStartArray => Some(stack + [Array([])])
    case EEndObject(n) =>
      if |stack| < 2 * n + 1 || !NamesAreStrings(stack[|stack| - 2 * n..]) then None
      else Some(stack[..|stack| - 2 * n - 1] + [Object(MembersOf(stack[|stack| - 2 * n..]))])
    case EEndArray(n) =>
      if |stack| < n + 1 then None
      else Some(stack[..|stack| - n - 1] + [Array(stack[|stack| - n..])])
  }

  function Run(stack: seq<Value>, es: seq<Event>): Option<seq<Value>>
    decreases |es|
  {
    if es == [] then Some(stack)
    else
      match Step(stack, es[0])
      case None => None
      case Some(next) => Run(next, es[1..])
  }

  /** A member is two values that lie next to each other: the name and the value. */
  predicate NamesAreStrings(vs: seq<Value>) {
    forall k | 0 <= k < |vs| / 2 :: vs[2 * k].String?
  }

  function MembersOf(vs: seq<Value>): seq<Member>
    requires NamesAreStrings(vs)
  {
    seq(|vs| / 2, k requires 0 <= k < |vs| / 2 => Member(vs[2 * k].chars, vs[2 * k].copied, vs[2 * k + 1]))
  }

  function Flat(ms: seq<Member>): seq<Value> {
    seq(2 * |ms|, i requires 0 <= i < 2 * |ms| =>
      if i % 2 == 0 then String(ms[i / 2].name, ms[i / 2].nameCopied) else ms[i / 2].value)
  }

  lemma FlatCons(ms: seq<Member>)
    requires ms != []
    ensures Flat(ms) == [String(ms[0].name, ms[0].nameCopied), ms[0].value] + Flat(ms[1..])
  {
    var vs := [String(ms[0].name, ms[0].nameCopied), ms[0].value] + Flat(ms[1..]);
    forall i | 0 <= i < 2 * |ms|
      ensures Flat(ms)[i] == vs[i]
    {
      if i >= 2 {
        assert (i - 2) / 2 == i / 2 - 1 && (i - 2) % 2 == i % 2;
      }
    }
  }

  lemma {:induction false} RunAppend(stack: seq<Value>, a: seq<Event>, b: seq<Event>)
    ensures Run(stack, a + b) == if Run(stack, a).None? then None else Run(Run(stack, a).value, b)
    decreases |a|
  {
    if a == [] {
      assert a + b == b;
    } else {
      assert (a + b)[1..] == a[1..] + b;
      if Step(stack, a[0]).Some? {
        RunAppend(Step(stack, a[0]).value, a[1..], b);
      }
    }
  }

  lemma RunOne(stack: seq<Value>, e: Event)
    ensures Run(stack, [e]) == Step(stack, e)
  {
    assert [e][1..] == [];
  }

  /** Running the handler on the events of a tree takes any stack to that stack with exactly one more
      value, and that value is the tree: order, duplicates, copy flags and number flags included. */
  lemma {:induction false} RunAccept(stack: seq<Value>, v: Value)
    requires Built(v)
    ensures Run(stack, Accept(v)) == Some(stack + [v])
    decreases v, 1
  {
    match v
    case Array(es) =>
      RunElements(stack + [Array([])], es);
      RunBracketed(stack, EStartArray, AcceptElements(es), EEndArray(|es|), stack + [Array([])] + es);
      ArrayClosed(stack, es);
    case Object(ms) =>
      RunMembers(stack + [Object([])], ms);
      RunBracketed(stack, EStartObject, AcceptMembers(ms), EEndObject(|ms|), stack + [Object([])] + Flat(ms));
      ObjectClosed(stack, ms);
    case Number(bits, flags) =>
      var x :| IsInteger(x) && v == NumberOf(x);
      NumberEventFits(x);
      RunOne(stack, NumberEvent(bits, flags));
    case _ =>
      RunOne(stack, Accept(v)[0]);
  }

  lemma ArrayClosed(stack: seq<Value>, es: seq<Value>)
    ensures Step(stack + [Array([])] + es, EEndArray(|es|)) == Some(stack + [Array(es)])
  {
    var full := stack + [Array([])] + es;
    assert full[|full| - |es|..] == es && full[..|full| - |es| - 1] == stack;
  }

  lemma ObjectClosed(stack: seq<Value>, ms: seq<Member>)
    ensures Step(stack + [Object([])] + Flat(ms), EEndObject(|ms|)) == Some(stack + [Object(ms)])
  {
    var full := stack + [Object([])] + Flat(ms);
    assert full[|full| - 2 * |ms|..] == Flat(ms) && full[..|full| - 2 * |ms| - 1] == stack;
    MembersOfFlat(ms);
  }

  lemma RunBracketed(stack: seq<Value>, open: Event, body: seq<Event>, close: Event, full: seq<Value>)
    requires Step(stack, open).Some? && Run(Step(stack, open).value, body) == Some(full)
    ensures Run(stack, [open] + (body + [close])) == Step(full, close)
  {
    RunOne(stack, open);
    RunOne(full, close);
    RunAppend(stack, [open], body + [close]);
    RunAppend(Step(stack, open).value, body, [close]);
  }

  lemma {:induction false} RunElements(stack: seq<Value>, es: seq<Value>)
    requires forall k | 0 <= k < |es| :: Built(es[k])
    ensures Run(stack, AcceptElements(es)) == Some(stack + es)
    decreases es, 0
  {
    if es == [] {
      assert stack + es == stack;
    } else {
      RunAccept(stack, es[0]);
      RunAppend(stack, Accept(es[0]), AcceptElements(es[1..]));
      RunElements(stack + [es[0]], es[1..]);
      ConcatAssoc(stack, [es[0]], es[1..]);
      assert [es[0]] + es[1..] == es;
    }
  }

  lemma {:induction false} RunMembers(stack: seq<Value>, ms: seq<Member>)
    requires forall k | 0 <= k < |ms| :: Built(ms[k].value)
    ensures Run(stack, AcceptMembers(ms)) == Some(stack + Flat(ms))
    decreases ms, 0
  {
    if ms == [] {
      assert stack + Flat(ms) == stack;
    } else {
      var key := EKey(ms[0].name, ms[0].nameCopied);
      var name, value := String(ms[0].name, ms[0].nameCopied), ms[0].value;
      RunOne(stack, key);
      RunAppend(stack, [key], Accept(value) + AcceptMembers(ms[1..]));
      RunAccept(stack + [name], value);
      RunAppend(stack + [name], Accept(value), AcceptMembers(ms[1..]));
      RunMembers(stack + [name] + [value], ms[1..]);
      ConcatAssoc(stack, [name], [value]);
      assert [name] + [value] == [name, value];
      ConcatAssoc(stack, [name, value], Flat(ms[1..]));
      FlatCons(ms);
    }
  }

  lemma MembersOfFlat(ms: seq<Member>)
    ensures NamesAreStrings(Flat(ms)) && MembersOf(Flat(ms)) == ms
  {
    var vs := Flat(ms);
    forall k | 0 <= k < |vs| / 2
      ensures vs[2 * k].String?
    {
      assert vs[2 * k] == String(ms[k].name, ms[k].nameCopied);
    }
    assert |MembersOf(vs)| == |ms|;
  }

  class Document {
    var root: Value
    var stack: seq<Value>

    constructor ()
      ensures root == Null && stack == []
    {
      root, stack := Null, [];
    }

    method Push(v: Value)
      modifies `stack
      ensures stack == old(stack) + [v]
    {
      stack := stack + [v];
    }

    /** Pops two values for each member and turns the value below them into the object. */
    method EndObject(memberCount: nat)
      requires Step(stack, EEndObject(memberCount)).Some?
      modifies `stack
      ensures Some(stack) == Step(old(stack), EEndObject(memberCount))
    {
      var top := |stack| - 2 * memberCount;
      var members := stack[top..];
      stack := stack[..top];
      var i, ms: seq<Member> := 0, [];
      while i < memberCount
        invariant i <= memberCount && ms == MembersOf(members)[..i]
      {
        ms := ms + [Member(members[2 * i].chars, members[2 * i].copied, members[2 * i + 1])];
        i := i + 1;
      }
      assert stack[..|stack| - 1] == old(stack)[..top - 1] && ms == MembersOf(members);
      stack := stack[..|stack| - 1] + [Object(ms)];
    }

    method EndArray(elementCount: nat)
      requires Step(stack, EEndArray(elementCount)).Some?
      modifies `stack
      ensures Some(stack) == Step(old(stack), EEndArray(elementCount))
    {
      var top := |stack| - elementCount;
      var elements := stack[top..];
      stack := stack[..top];
      assert stack[..|stack| - 1] == old(stack)[..top - 1];
      stack := stack[..|stack| - 1] + [Array(elements)];
    }

    method Handle(e: Event)
      requires Step(stack, e).Some?
      modifies `stack
      ensures Some(stack) == Step(old(stack), e)
    {
      match e {
        case ENull => Push(Null);
        case EBool(b) => Push(Bool(b));
        case EInt(i) => Push(FromInt(i));
        case EUint(u) => Push(FromUint(u));
        case EInt64(i) => Push(FromInt64(i));
        case EUint64(u) => Push(FromUint64(u));
        case EDouble(d) => Push(Double(d));
        case EString(chars, copy) => Push(String(chars, copy));
        case EKey(chars, copy) => Push(String(chars, copy));
        case EStartObject => Push(Object([]));
        case EStartArray => Push(Array([]));
        case EEndObject(n) => EndObject(n);
        case EEndArray(n) => EndArray(n);
      }
    }

    /** Populating from the events of a tree finds exactly one root, which becomes the document. */
    method Populate(v: Value)
      requires Built(v) && stack == []
      modifies this
      ensures root == v && stack == []
    {
      var events := Accept(v);
      RunAccept([], v);
      var k := 0;
      assert events[0..] == events && [] + [v] == [v];
      while k < |events|
        invariant k <= |events| && Run(stack, events[k..]) == Some([v])
      {
        assert events[k..][1..] == events[k + 1..];
        Handle(events[k]);
        k := k + 1;
      }
      assert events[k..] == [];
      assert |stack| == 1;
      root := stack[0];
      stack := [];
    }
  }
}
