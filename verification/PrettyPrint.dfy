/** The indenting writer: a state machine over a stack of levels that is driven by events. */
module PrettyPrint {
  import opened Encodings
  import opened Dom
  import opened Events

  /** A piece of output: the text of a leaf or a name, or one character between such texts. */
  datatype Piece = Leaf(e: Event) | Mark(c: char)

  datatype Level = Level(inArray: bool, valueCount: nat)

  /** The options of the format, and the write flag that allows NaN and the infinities. */
  datatype Format = Format(indentChar: char, indentCharCount: nat, singleLineArray: bool, nanAndInf: bool)

  datatype Writer = Writer(os: seq<Piece>, levels: seq<Level>, hasRoot: bool, flushed: nat)

  // ------------------------------------------------------------------ the text of a tree

  function Indent(f: Format, depth: nat): seq<Piece> {
    seq(depth * f.indentCharCount, _ => Mark(f.indentChar))
  }

  function NewLine(f: Format, depth: nat): seq<Piece> {
    [Mark('\n')] + Indent(f, depth)
  }

  function LeafOf(v: Value): seq<Piece>
    requires !v.Array? && !v.Object?
  {
    [Leaf(Accept(v)[0])]
  }

  function NameOf(m: Member): Piece {
    Leaf(EString(m.name, m.nameCopied))
  }

  /** The text without layout (sections 2, 4 and 5 of RFC 8259). */
  function Compact(v: Value): seq<Piece>
    decreases v
  {
    match v
    case Array(es) => [Mark('[')] + (CompactElements(es) + [Mark(']')])
    case Object(ms) => [Mark('{')] + (CompactMembers(ms) + [Mark('}')])
    case _ => LeafOf(v)
  }

  function CompactElements(es: seq<Value>): seq<Piece>
    decreases es
  {
    if es == [] then []
    else if |es| == 1 then Compact(es[0])
    else Compact(es[0]) + ([Mark(',')] + CompactElements(es[1..]))
  }

  function CompactMembers(ms: seq<Member>): seq<Piece>
    decreases ms
  {
    if ms == [] then []
    else
      var first := [NameOf(ms[0]), Mark(':')] + Compact(ms[0].value);
      if |ms| == 1 then first else first + ([Mark(',')] + CompactMembers(ms[1..]))
  }

  /** What stands before element k of an array. */
  function BeforeElement(f: Format, k: nat, depth: nat): seq<Piece> {
    (if k > 0 then (if f.singleLineArray then [Mark(','), Mark(' ')] else [Mark(',')]) else [])
    + (if f.singleLineArray then [] else NewLine(f, depth))
  }

  function BeforeMember(f: Format, k: nat, depth: nat): seq<Piece> {
    (if k > 0 then [Mark(',')] else []) + NewLine(f, depth)
  }

  /** The indented text, at a nesting depth. */
  function Pretty(f: Format, v: Value, depth: nat): seq<Piece>
    decreases v
  {
    match v
    case Array(es) =>
      [Mark('[')] + (PrettyElements(f, es, 0, depth + 1)
                     + ((if es == [] || f.singleLineArray then [] else NewLine(f, depth)) + [Mark(']')]))
    case Object(ms) =>
      [Mark('{')] + (PrettyMembers(f, ms, 0, depth + 1)
                     + ((if ms == [] then [] else NewLine(f, depth)) + [Mark('}')]))
    case _ => LeafOf(v)
  }

  /** The elements still to come, of which the first has number k. */
  function PrettyElements(f: Format, es: seq<Value>, k: nat, depth: nat): seq<Piece>
    decreases es
  {
    if es == [] then []
    else BeforeElement(f, k, depth) + (Pretty(f, es[0], depth) + PrettyElements(f, es[1..], k + 1, depth))
  }

  function PrettyMembers(f: Format, ms: seq<Member>, k: nat, depth: nat): seq<Piece>
    decreases ms
  {
    if ms == [] then []
    else BeforeMember(f, k, depth) + ([NameOf(ms[0]), Mark(':'), Mark(' ')]
         + (Pretty(f, ms[0].value, depth) + PrettyMembers(f, ms[1..], k + 1, depth)))
  }

  // ------------------------------------------------------------------ erasing layout

  /** The whitespace of section 2 of RFC 8259. */
  predicate IsWhitespace(c: char) {
    c == ' ' || c == '\t' || c == '\n' || c == '\r'
  }

  predicate IsLayout(p: Piece) {
    p.Mark? && IsWhitespace(p.c)
  }

  /** The whitespace between texts, gone. */
  function EraseLayout(ps: seq<Piece>): seq<Piece> {
    if ps == [] then []
    else (if IsLayout(ps[0]) then [] else [ps[0]]) + EraseLayout(ps[1..])
  }

  lemma {:induction false} EraseAppend(a: seq<Piece>, b: seq<Piece>)
    ensures EraseLayout(a + b) == EraseLayout(a) + EraseLayout(b)
  {
    if a == [] {
      assert a + b == b;
    } else {
      EraseAppend(a[1..], b);
      assert (a + b)[1..] == a[1..] + b;
      ConcatAssoc(if IsLayout(a[0]) then [] else [a[0]], EraseLayout(a[1..]), EraseLayout(b));
    }
  }

  lemma {:induction false} EraseSpaces(ps: seq<Piece>)
    requires forall k | 0 <= k < |ps| :: IsLayout(ps[k])
    ensures EraseLayout(ps) == []
  {
    if ps != [] {
      EraseSpaces(ps[1..]);
    }
  }

  lemma EraseMark(p: Piece, rest: seq<Piece>)
    requires !IsLayout(p)
    ensures EraseLayout([p] + rest) == [p] + EraseLayout(rest)
  {
    assert ([p] + rest)[1..] == rest;
  }

  lemma EraseNewLine(f: Format, depth: nat, rest: seq<Piece>)
    requires IsWhitespace(f.indentChar)
    ensures EraseLayout(NewLine(f, depth) + rest) == EraseLayout(rest)
  {
    EraseAppend(NewLine(f, depth), rest);
    EraseSpaces(NewLine(f, depth));
  }

  /** Without its layout the indented text is the compact text. */
  lemma {:induction false} PrettyIsCompact(f: Format, v: Value, depth: nat)
    requires IsWhitespace(f.indentChar)
    ensures EraseLayout(Pretty(f, v, depth)) == Compact(v)
    decreases v, 1
  {
    match v
    case Array(es) =>
      var body := PrettyElements(f, es, 0, depth + 1);
      var end := if es == [] || f.singleLineArray then [] else NewLine(f, depth);
      PrettyElementsCompact(f, es, 0, depth + 1);
      EraseClosing(f, depth, end, ']');
      EraseAppend(body, end + [Mark(']')]);
      EraseMark(Mark('['), body + (end + [Mark(']')]));
    case Object(ms) =>
      var body := PrettyMembers(f, ms, 0, depth + 1);
      var end := if ms == [] then [] else NewLine(f, depth);
      PrettyMembersCompact(f, ms, 0, depth + 1);
      EraseClosing(f, depth, end, '}');
      EraseAppend(body, end + [Mark('}')]);
      EraseMark(Mark('{'), body + (end + [Mark('}')]));
    case _ =>
      EraseMark(LeafOf(v)[0], []);
  }

  lemma EraseClosing(f: Format, depth: nat, end: seq<Piece>, c: char)
    requires IsWhitespace(f.indentChar)
    requires (end == [] || end == NewLine(f, depth)) && !IsWhitespace(c)
    ensures EraseLayout(end + [Mark(c)]) == [Mark(c)]
  {
    EraseMark(Mark(c), []);
    assert [Mark(c)] + [] == [Mark(c)];
    if end == [] {
      assert end + [Mark(c)] == [Mark(c)];
    } else {
      EraseNewLine(f, depth, [Mark(c)]);
    }
  }

  lemma EraseBeforeElement(f: Format, k: nat, depth: nat)
    requires IsWhitespace(f.indentChar)
    ensures EraseLayout(BeforeElement(f, k, depth)) == if k > 0 then [Mark(',')] else []
  {
    var a := if k > 0 then (if f.singleLineArray then [Mark(','), Mark(' ')] else [Mark(',')]) else [];
    var b := if f.singleLineArray then [] else NewLine(f, depth);
    EraseAppend(a, b);
    EraseSpaces(b);
    if k > 0 {
      var rest := if f.singleLineArray then [Mark(' ')] else [];
      assert a == [Mark(',')] + rest;
      EraseMark(Mark(','), rest);
      EraseSpaces(rest);
    }
  }

  lemma EraseBeforeMember(f: Format, k: nat, depth: nat)
    requires IsWhitespace(f.indentChar)
    ensures EraseLayout(BeforeMember(f, k, depth)) == if k > 0 then [Mark(',')] else []
  {
    var a := if k > 0 then [Mark(',')] else [];
    EraseAppend(a, NewLine(f, depth));
    EraseSpaces(NewLine(f, depth));
    if k > 0 {
      EraseMark(Mark(','), []);
    }
  }

  /** The separator that the compact text has before element k of what is left. */
  function Separated(k: nat, left: nat, body: seq<Piece>): seq<Piece> {
    if k > 0 && left > 0 then [Mark(',')] + body else body
  }

  lemma {:induction false} PrettyElementsCompact(f: Format, es: seq<Value>, k: nat, depth: nat)
    requires IsWhitespace(f.indentChar)
    ensures EraseLayout(PrettyElements(f, es, k, depth)) == Separated(k, |es|, CompactElements(es))
    decreases es, 0
  {
    if es != [] {
      var tail := PrettyElements(f, es[1..], k + 1, depth);
      PrettyIsCompact(f, es[0], depth);
      PrettyElementsCompact(f, es[1..], k + 1, depth);
      EraseBeforeElement(f, k, depth);
      EraseAppend(Pretty(f, es[0], depth), tail);
      EraseAppend(BeforeElement(f, k, depth), Pretty(f, es[0], depth) + tail);
    }
  }

  lemma {:induction false} PrettyMembersCompact(f: Format, ms: seq<Member>, k: nat, depth: nat)
    requires IsWhitespace(f.indentChar)
    ensures EraseLayout(PrettyMembers(f, ms, k, depth)) == Separated(k, |ms|, CompactMembers(ms))
    decreases ms, 0
  {
    if ms != [] {
      var tail := PrettyMembers(f, ms[1..], k + 1, depth);
      var value := Pretty(f, ms[0].value, depth);
      var head := [NameOf(ms[0]), Mark(':'), Mark(' ')];
      PrettyIsCompact(f, ms[0].value, depth);
      PrettyMembersCompact(f, ms[1..], k + 1, depth);
      EraseBeforeMember(f, k, depth);
      EraseHead(ms[0]);
      EraseAppend(value, tail);
      EraseAppend(head, value + tail);
      EraseAppend(BeforeMember(f, k, depth), head + (value + tail));
      ConcatAssoc([NameOf(ms[0]), Mark(':')], Compact(ms[0].value), EraseLayout(tail));
    }
  }

  lemma EraseHead(m: Member)
    ensures EraseLayout([NameOf(m), Mark(':'), Mark(' ')]) == [NameOf(m), Mark(':')]
  {
    EraseSpaces([Mark(' ')]);
    EraseMark(Mark(':'), [Mark(' ')]);
    EraseMark(NameOf(m), [Mark(':'), Mark(' ')]);
    assert [NameOf(m)] + [Mark(':'), Mark(' ')] == [NameOf(m), Mark(':'), Mark(' ')];
    assert [Mark(':')] + [Mark(' ')] == [Mark(':'), Mark(' ')];
  }

  // ------------------------------------------------------------------ the state machine

  function Top(w: Writer): Level
    requires w.levels != []
  {
    w.levels[|w.levels| - 1]
  }

  /** What is written before a value or a name, and the count it adds; nothing where an assertion of
      the writer fails: a second root, or a name that is not a string. */
  function PrefixOf(f: Format, w: Writer, isString: bool): Option<Writer> {
    if w.levels == [] then
      if w.hasRoot then None else Some(w.(hasRoot := true))
    else
      var top, depth := Top(w), |w.levels|;
      var levels := w.levels[depth - 1 := top.(valueCount := top.valueCount + 1)];
      if top.inArray then
        Some(w.(os := w.os + BeforeElement(f, top.valueCount, depth), levels := levels))
      else if top.valueCount % 2 == 1 then
        Some(w.(os := w.os + [Mark(':'), Mark(' ')], levels := levels))
      else if isString then
        Some(w.(os := w.os + BeforeMember(f, top.valueCount / 2, depth), levels := levels))
      else
        None
  }

  /** The end of a value; the stream is flushed when no level is open. */
  function EndValue(w: Writer): Writer {
    if w.levels == [] then w.(flushed := |w.os|) else w
  }

  function CloseOf(f: Format, w: Writer, isArray: bool): Option<Writer> {
    if w.levels == [] || Top(w).inArray != isArray || (!isArray && Top(w).valueCount % 2 != 0) then None
    else
      var outer := w.levels[..|w.levels| - 1];
      var layout := if Top(w).valueCount == 0 || (isArray && f.singleLineArray) then [] else NewLine(f, |outer|);
      Some(EndValue(w.(os := w.os + (layout + [Mark(if isArray then ']' else '}')]), levels := outer)))
  }

  /** A double that `WriteDouble` puts a text for. */
  predicate HasText(f: Format, d: Float) {
    d.Finite? || f.nanAndInf
  }

  /** The handler returns false. */
  predicate Refused(f: Format, e: Event) {
    e.EDouble? && !HasText(f, e.d)
  }

  /** The part of a handler after its prefix: an opened level, or a leaf with its text, if it has one. */
  function WriteOf(f: Format, u: Writer, e: Event): Writer {
    if e.EStartObject? then u.(os := u.os + [Mark('{')], levels := u.levels + [Level(false, 0)])
    else if e.EStartArray? then u.(os := u.os + [Mark('[')], levels := u.levels + [Level(true, 0)])
    else
      var leaf := if e.EKey? then EString(e.chars, e.copy) else e;
      EndValue(if Refused(f, e) then u else u.(os := u.os + [Leaf(leaf)]))
  }

  function Step(f: Format, w: Writer, e: Event): Option<Writer> {
    if e.EEndObject? then CloseOf(f, w, false)
    else if e.EEndArray? then CloseOf(f, w, true)
    else
      var p := PrefixOf(f, w, e.EString? || e.EKey?);
      if p.None? then None else Some(WriteOf(f, p.value, e))
  }

  /** When an assertion of a handler fails: an end without its start, an object that ends behind a name, a
      second root, a name that is not a string. */
  lemma AssertionFails(f: Format, w: Writer, e: Event)
    ensures Step(f, w, e).None? <==>
              if e.EEndObject? then w.levels == [] || Top(w).inArray || Top(w).valueCount % 2 == 1
              else if e.EEndArray? then w.levels == [] || !Top(w).inArray
              else if w.levels == [] then w.hasRoot
              else !Top(w).inArray && Top(w).valueCount % 2 == 0 && !e.EString? && !e.EKey?
  {
  }

  /** The events up to the first one that is refused. */
  function Run(f: Format, w: Writer, es: seq<Event>): Option<Writer>
    decreases |es|
  {
    if es == [] then Some(w)
    else
      match Step(f, w, es[0])
      case None => None
      case Some(next) => if Refused(f, es[0]) then Some(next) else Run(f, next, es[1..])
  }

  predicate AllWritten(f: Format, es: seq<Event>) {
    forall k | 0 <= k < |es| :: !Refused(f, es[k])
  }

  lemma AllWrittenAppend(f: Format, a: seq<Event>, b: seq<Event>)
    ensures AllWritten(f, a + b) <==> AllWritten(f, a) && AllWritten(f, b)
  {
    var es := a + b;
    assert forall k | 0 <= k < |a| :: es[k] == a[k];
    assert forall k | 0 <= k < |b| :: es[|a| + k] == b[k];
  }

  lemma {:induction false} RunAppend(f: Format, w: Writer, a: seq<Event>, b: seq<Event>)
    ensures Run(f, w, a + b) == if Run(f, w, a).None? || !AllWritten(f, a) then Run(f, w, a)
                                else Run(f, Run(f, w, a).value, b)
    decreases |a|
  {
    if a == [] {
      assert a + b == b;
    } else {
      assert (a + b)[1..] == a[1..] + b && a == [a[0]] + a[1..];
      AllWrittenAppend(f, [a[0]], a[1..]);
      assert [a[0]][0] == a[0];
      if Step(f, w, a[0]).Some? && !Refused(f, a[0]) {
        RunAppend(f, Step(f, w, a[0]).value, a[1..], b);
      }
    }
  }

  lemma RunOne(f: Format, w: Writer, e: Event)
    ensures Run(f, w, [e]) == Step(f, w, e) && (AllWritten(f, [e]) <==> !Refused(f, e))
  {
    assert [e][1..] == [] && [e][0] == e;
  }

  /** Every double in the tree has a text. */
  predicate Writable(f: Format, v: Value)
    decreases v
  {
    match v
    case Double(d) => HasText(f, d)
    case Array(es) => ElementsWritable(f, es)
    case Object(ms) => MembersWritable(f, ms)
    case _ => true
  }

  predicate ElementsWritable(f: Format, es: seq<Value>)
    decreases es
  {
    es == [] || (Writable(f, es[0]) && ElementsWritable(f, es[1..]))
  }

  predicate MembersWritable(f: Format, ms: seq<Member>)
    decreases ms
  {
    ms == [] || (Writable(f, ms[0].value) && MembersWritable(f, ms[1..]))
  }

  /** No NaN and no infinity in the tree. */
  predicate AllFinite(v: Value) {
    match v
    case Double(d) => d != NotANumber && d != Infinite(true) && d != Infinite(false)
    case Array(es) => forall k | 0 <= k < |es| :: AllFinite(es[k])
    case Object(ms) => forall k | 0 <= k < |ms| :: AllFinite(ms[k].value)
    case _ => true
  }

  /** Every double has a text exactly when the write flag allows all of them or all are finite. */
  lemma {:induction false} WritableMeans(f: Format, v: Value)
    ensures Writable(f, v) <==> f.nanAndInf || AllFinite(v)
    decreases v, 1
  {
    match v
    case Array(es) => ElementsFinite(f, es);
    case Object(ms) => MembersFinite(f, ms);
    case _ =>
  }

  lemma {:induction false} ElementsFinite(f: Format, es: seq<Value>)
    ensures ElementsWritable(f, es) <==> f.nanAndInf || forall k | 0 <= k < |es| :: AllFinite(es[k])
    decreases es, 0
  {
    if es != [] {
      WritableMeans(f, es[0]);
      ElementsFinite(f, es[1..]);
      assert forall k | 1 <= k < |es| :: es[k] == es[1..][k - 1];
      assert forall k | 0 <= k < |es| - 1 :: es[1..][k] == es[k + 1];
    }
  }

  lemma {:induction false} MembersFinite(f: Format, ms: seq<Member>)
    ensures MembersWritable(f, ms) <==> f.nanAndInf || forall k | 0 <= k < |ms| :: AllFinite(ms[k].value)
    decreases ms, 0
  {
    if ms != [] {
      WritableMeans(f, ms[0].value);
      MembersFinite(f, ms[1..]);
      assert forall k | 1 <= k < |ms| :: ms[k] == ms[1..][k - 1];
      assert forall k | 0 <= k < |ms| - 1 :: ms[1..][k] == ms[k + 1];
    }
  }

  /** A handler refuses an event of the tree exactly when the tree has a double without a text. */
  lemma {:induction false} WritableIsWritten(f: Format, v: Value)
    ensures AllWritten(f, Accept(v)) <==> Writable(f, v)
    decreases v, 1
  {
    match v
    case Array(es) =>
      ElementsWritten(f, es);
      BracketedWritten(f, EStartArray, AcceptElements(es), EEndArray(|es|));
    case Object(ms) =>
      MembersWritten(f, ms);
      BracketedWritten(f, EStartObject, AcceptMembers(ms), EEndObject(|ms|));
    case _ =>
      assert |Accept(v)| == 1 && (Refused(f, Accept(v)[0]) <==> !Writable(f, v));
  }

  lemma BracketedWritten(f: Format, open: Event, body: seq<Event>, close: Event)
    requires !Refused(f, open) && !Refused(f, close)
    ensures AllWritten(f, [open] + (body + [close])) <==> AllWritten(f, body)
  {
    AllWrittenAppend(f, [open], body + [close]);
    AllWrittenAppend(f, body, [close]);
  }

  lemma {:induction false} ElementsWritten(f: Format, es: seq<Value>)
    ensures AllWritten(f, AcceptElements(es)) <==> ElementsWritable(f, es)
    decreases es, 0
  {
    if es != [] {
      WritableIsWritten(f, es[0]);
      ElementsWritten(f, es[1..]);
      AllWrittenAppend(f, Accept(es[0]), AcceptElements(es[1..]));
    }
  }

  lemma {:induction false} MembersWritten(f: Format, ms: seq<Member>)
    ensures AllWritten(f, AcceptMembers(ms)) <==> MembersWritable(f, ms)
    decreases ms, 0
  {
    if ms != [] {
      var key := [EKey(ms[0].name, ms[0].nameCopied)];
      WritableIsWritten(f, ms[0].value);
      MembersWritten(f, ms[1..]);
      AllWrittenAppend(f, key, Accept(ms[0].value) + AcceptMembers(ms[1..]));
      AllWrittenAppend(f, Accept(ms[0].value), AcceptMembers(ms[1..]));
    }
  }

  /** A value may come next: no root yet, or inside an array, or after a name. */
  predicate Ready(w: Writer) {
    if w.levels == [] then !w.hasRoot else Top(w).inArray || Top(w).valueCount % 2 == 1
  }

  /** The writer after one whole value: its prefix, its text, one more value counted, all else kept. */
  function After(f: Format, w: Writer, v: Value): Writer
    requires Ready(w)
  {
    var u := PrefixOf(f, w, false).value;
    EndValue(u.(os := u.os + Pretty(f, v, |w.levels|)))
  }

  /** When every double has a text, no assertion of the writer fails on the events of a tree, and they print
      its indented text. */
  lemma {:induction false} RunAccept(f: Format, w: Writer, v: Value)
    requires Ready(w) && Writable(f, v)
    ensures Run(f, w, Accept(v)) == Some(After(f, w, v))
    decreases v, 1
  {
    match v
    case Array(es) =>
      var u := PrefixOf(f, w, false).value;
      var inner := Writer(u.os + [Mark('[')], u.levels + [Level(true, 0)], u.hasRoot, u.flushed);
      RunElements(f, inner, es);
      ElementsWritten(f, es);
      RunBracketed(f, w, EStartArray, AcceptElements(es), EEndArray(|es|), InArray(f, inner, es));
      ArrayClosed(f, u, es);
    case Object(ms) =>
      var u := PrefixOf(f, w, false).value;
      var inner := Writer(u.os + [Mark('{')], u.levels + [Level(false, 0)], u.hasRoot, u.flushed);
      RunMembers(f, inner, ms);
      MembersWritten(f, ms);
      RunBracketed(f, w, EStartObject, AcceptMembers(ms), EEndObject(|ms|), InObject(f, inner, ms));
      ObjectClosed(f, u, ms);
    case _ =>
      PrefixOfReady(f, w);
      RunOne(f, w, Accept(v)[0]);
  }

  lemma PrefixOfReady(f: Format, w: Writer)
    requires Ready(w)
    ensures PrefixOf(f, w, true) == PrefixOf(f, w, false)
  {
  }

  lemma RunBracketed(f: Format, w: Writer, open: Event, body: seq<Event>, close: Event, full: Writer)
    requires Step(f, w, open).Some? && !Refused(f, open) && !Refused(f, close)
    requires Run(f, Step(f, w, open).value, body) == Some(full)
    ensures Run(f, w, [open] + (body + [close])) == if AllWritten(f, body) then Step(f, full, close) else Some(full)
  {
    RunOne(f, w, open);
    RunOne(f, full, close);
    RunAppend(f, w, [open], body + [close]);
    RunAppend(f, Step(f, w, open).value, body, [close]);
  }

  /** After the elements of an array whose level is on top. */
  function InArray(f: Format, w: Writer, es: seq<Value>): Writer
    requires w.levels != []
  {
    var depth, top := |w.levels|, Top(w);
    w.(os := w.os + PrettyElements(f, es, top.valueCount, depth),
       levels := w.levels[depth - 1 := top.(valueCount := top.valueCount + |es|)])
  }

  function InObject(f: Format, w: Writer, ms: seq<Member>): Writer
    requires w.levels != []
  {
    var depth, top := |w.levels|, Top(w);
    w.(os := w.os + PrettyMembers(f, ms, top.valueCount / 2, depth),
       levels := w.levels[depth - 1 := top.(valueCount := top.valueCount + 2 * |ms|)])
  }

  lemma Enclosed(os: seq<Piece>, open: seq<Piece>, body: seq<Piece>, end: seq<Piece>)
    ensures os + open + body + end == os + (open + (body + end))
  {
  }

  lemma ArrayClosed(f: Format, u: Writer, es: seq<Value>)
    ensures var inner := Writer(u.os + [Mark('[')], u.levels + [Level(true, 0)], u.hasRoot, u.flushed);
            Step(f, InArray(f, inner, es), EEndArray(|es|))
            == Some(EndValue(u.(os := u.os + Pretty(f, Array(es), |u.levels|))))
  {
    var inner := Writer(u.os + [Mark('[')], u.levels + [Level(true, 0)], u.hasRoot, u.flushed);
    var full := InArray(f, inner, es);
    var body, depth := PrettyElements(f, es, 0, |u.levels| + 1), |u.levels|;
    var end := (if es == [] || f.singleLineArray then [] else NewLine(f, depth)) + [Mark(']')];
    assert full.levels[..depth] == u.levels && Top(full) == Level(true, |es|);
    Enclosed(u.os, [Mark('[')], body, end);
  }

  lemma ObjectClosed(f: Format, u: Writer, ms: seq<Member>)
    ensures var inner := Writer(u.os + [Mark('{')], u.levels + [Level(false, 0)], u.hasRoot, u.flushed);
            Step(f, InObject(f, inner, ms), EEndObject(|ms|))
            == Some(EndValue(u.(os := u.os + Pretty(f, Object(ms), |u.levels|))))
  {
    var inner := Writer(u.os + [Mark('{')], u.levels + [Level(false, 0)], u.hasRoot, u.flushed);
    var full := InObject(f, inner, ms);
    var body, depth := PrettyMembers(f, ms, 0, |u.levels| + 1), |u.levels|;
    var end := (if ms == [] then [] else NewLine(f, depth)) + [Mark('}')];
    assert full.levels[..depth] == u.levels && Top(full) == Level(false, 2 * |ms|);
    Enclosed(u.os, [Mark('{')], body, end);
    assert full.os == u.os + [Mark('{')] + body;
  }

  lemma {:induction false} RunElements(f: Format, w: Writer, es: seq<Value>)
    requires w.levels != [] && Top(w).inArray && ElementsWritable(f, es)
    ensures Run(f, w, AcceptElements(es)) == Some(InArray(f, w, es))
    decreases es, 0
  {
    var depth, top := |w.levels|, Top(w);
    if es == [] {
      assert w.os + [] == w.os && w.levels[depth - 1 := top] == w.levels;
    } else {
      var next := After(f, w, es[0]);
      RunAccept(f, w, es[0]);
      WritableIsWritten(f, es[0]);
      RunAppend(f, w, Accept(es[0]), AcceptElements(es[1..]));
      RunElements(f, next, es[1..]);
      ElementsStep(f, w, es);
    }
  }

  lemma ElementsStep(f: Format, w: Writer, es: seq<Value>)
    requires w.levels != [] && Top(w).inArray && es != []
    ensures After(f, w, es[0]).levels != []
    ensures InArray(f, After(f, w, es[0]), es[1..]) == InArray(f, w, es)
  {
    var depth, k := |w.levels|, Top(w).valueCount;
    var before, text := BeforeElement(f, k, depth), Pretty(f, es[0], depth);
    var tail := PrettyElements(f, es[1..], k + 1, depth);
    ConcatAssoc(w.os, before, text + tail);
    ConcatAssoc(w.os + before, text, tail);
  }

  lemma {:induction false} RunMembers(f: Format, w: Writer, ms: seq<Member>)
    requires w.levels != [] && !Top(w).inArray && Top(w).valueCount % 2 == 0
    requires MembersWritable(f, ms)
    ensures Run(f, w, AcceptMembers(ms)) == Some(InObject(f, w, ms))
    decreases ms, 0
  {
    var depth, top := |w.levels|, Top(w);
    if ms == [] {
      assert w.os + [] == w.os && w.levels[depth - 1 := top] == w.levels;
    } else {
      var key := EKey(ms[0].name, ms[0].nameCopied);
      var named := Step(f, w, key).value;
      var next := After(f, named, ms[0].value);
      RunAccept(f, named, ms[0].value);
      MemberUnfolds(f, w, ms, named);
      RunMembers(f, next, ms[1..]);
      MembersStep(f, w, ms);
    }
  }

  lemma MemberUnfolds(f: Format, w: Writer, ms: seq<Member>, named: Writer)
    requires ms != [] && Step(f, w, EKey(ms[0].name, ms[0].nameCopied)) == Some(named)
    ensures var r := Run(f, named, Accept(ms[0].value));
            Run(f, w, AcceptMembers(ms))
            == if r.None? || !Writable(f, ms[0].value) then r else Run(f, r.value, AcceptMembers(ms[1..]))
  {
    var key := EKey(ms[0].name, ms[0].nameCopied);
    RunOne(f, w, key);
    RunAppend(f, w, [key], Accept(ms[0].value) + AcceptMembers(ms[1..]));
    RunAppend(f, named, Accept(ms[0].value), AcceptMembers(ms[1..]));
    WritableIsWritten(f, ms[0].value);
  }

  lemma MembersStep(f: Format, w: Writer, ms: seq<Member>)
    requires w.levels != [] && !Top(w).inArray && Top(w).valueCount % 2 == 0 && ms != []
    ensures var named := Step(f, w, EKey(ms[0].name, ms[0].nameCopied));
            && named.Some? && Ready(named.value) && named.value.levels != []
            && After(f, named.value, ms[0].value).levels != []
            && InObject(f, After(f, named.value, ms[0].value), ms[1..]) == InObject(f, w, ms)
            && |named.value.levels| == |After(f, named.value, ms[0].value).levels| == |w.levels|
            && After(f, named.value, ms[0].value).os <= InObject(f, w, ms).os
  {
    var depth, k := |w.levels|, Top(w).valueCount / 2;
    var before, name, colon := BeforeMember(f, k, depth), [NameOf(ms[0])], [Mark(':'), Mark(' ')];
    var text, tail := Pretty(f, ms[0].value, depth), PrettyMembers(f, ms[1..], k + 1, depth);
    ConcatAssoc(w.os, before, name + colon + (text + tail));
    ConcatAssoc(w.os + before, name + colon, text + tail);
    ConcatAssoc(w.os + before, name, colon);
    ConcatAssoc(w.os + before + name + colon, text, tail);
    assert name + colon == [NameOf(ms[0]), Mark(':'), Mark(' ')];
  }

  // ------------------------------------------------------------------ runs that are cut short

  /** The writer was stopped inside a value: all it put is the start of the text, and every level that was
      open still is; in an array or object that one is open too. */
  ghost predicate CutShort(f: Format, w: Writer, v: Value, r: Option<Writer>)
    requires Ready(w)
  {
    && r.Some? && r.value.os <= After(f, w, v).os
    && |r.value.levels| >= |w.levels| + if v.Array? || v.Object? then 1 else 0
  }

  /** A double without a text stops the run where it stands; still no assertion fails. */
  lemma {:induction false} RunRefused(f: Format, w: Writer, v: Value)
    requires Ready(w) && !Writable(f, v)
    ensures CutShort(f, w, v, Run(f, w, Accept(v)))
    decreases v, 1
  {
    var u := PrefixOf(f, w, false).value;
    match v
    case Array(es) =>
      var inner := Writer(u.os + [Mark('[')], u.levels + [Level(true, 0)], u.hasRoot, u.flushed);
      RunElementsRefused(f, inner, es);
      var r := Run(f, inner, AcceptElements(es)).value;
      ArrayCutShort(f, w, es, r);
      StartOfArray(f, u, es, r.os);
    case Object(ms) =>
      var inner := Writer(u.os + [Mark('{')], u.levels + [Level(false, 0)], u.hasRoot, u.flushed);
      RunMembersRefused(f, inner, ms);
      var r := Run(f, inner, AcceptMembers(ms)).value;
      ObjectCutShort(f, w, ms, r);
      StartOfObject(f, u, ms, r.os);
    case Double(d) =>
      RunOne(f, w, EDouble(d));
  }

  lemma ArrayCutShort(f: Format, w: Writer, es: seq<Value>, r: Writer)
    requires Ready(w) && !Writable(f, Array(es))
    requires var u := PrefixOf(f, w, false).value;
             Run(f, Writer(u.os + [Mark('[')], u.levels + [Level(true, 0)], u.hasRoot, u.flushed), AcceptElements(es))
             == Some(r)
    ensures Run(f, w, Accept(Array(es))) == Some(r)
  {
    ElementsWritten(f, es);
    RunBracketed(f, w, EStartArray, AcceptElements(es), EEndArray(|es|), r);
  }

  lemma ObjectCutShort(f: Format, w: Writer, ms: seq<Member>, r: Writer)
    requires Ready(w) && !Writable(f, Object(ms))
    requires var u := PrefixOf(f, w, false).value;
             Run(f, Writer(u.os + [Mark('{')], u.levels + [Level(false, 0)], u.hasRoot, u.flushed), AcceptMembers(ms))
             == Some(r)
    ensures Run(f, w, Accept(Object(ms))) == Some(r)
  {
    MembersWritten(f, ms);
    RunBracketed(f, w, EStartObject, AcceptMembers(ms), EEndObject(|ms|), r);
  }

  lemma StartOfArray(f: Format, u: Writer, es: seq<Value>, os: seq<Piece>)
    requires os <= InArray(f, Writer(u.os + [Mark('[')], u.levels + [Level(true, 0)], u.hasRoot, u.flushed), es).os
    ensures os <= u.os + Pretty(f, Array(es), |u.levels|)
  {
    ArrayClosed(f, u, es);
  }

  lemma StartOfObject(f: Format, u: Writer, ms: seq<Member>, os: seq<Piece>)
    requires os <= InObject(f, Writer(u.os + [Mark('{')], u.levels + [Level(false, 0)], u.hasRoot, u.flushed), ms).os
    ensures os <= u.os + Pretty(f, Object(ms), |u.levels|)
  {
    ObjectClosed(f, u, ms);
  }

  lemma {:induction false} RunElementsRefused(f: Format, w: Writer, es: seq<Value>)
    requires w.levels != [] && Top(w).inArray && !ElementsWritable(f, es)
    ensures var r := Run(f, w, AcceptElements(es));
            r.Some? && r.value.os <= InArray(f, w, es).os && |r.value.levels| >= |w.levels|
    decreases es, 0
  {
    RunAppend(f, w, Accept(es[0]), AcceptElements(es[1..]));
    WritableIsWritten(f, es[0]);
    ElementsStep(f, w, es);
    if Writable(f, es[0]) {
      RunAccept(f, w, es[0]);
      RunElementsRefused(f, After(f, w, es[0]), es[1..]);
    } else {
      RunRefused(f, w, es[0]);
    }
  }

  lemma {:induction false} RunMembersRefused(f: Format, w: Writer, ms: seq<Member>)
    requires w.levels != [] && !Top(w).inArray && Top(w).valueCount % 2 == 0
    requires !MembersWritable(f, ms)
    ensures var r := Run(f, w, AcceptMembers(ms));
            r.Some? && r.value.os <= InObject(f, w, ms).os && |r.value.levels| >= |w.levels|
    decreases ms, 1
  {
    MembersStep(f, w, ms);
    var named := Step(f, w, EKey(ms[0].name, ms[0].nameCopied)).value;
    MemberUnfolds(f, w, ms, named);
    if Writable(f, ms[0].value) {
      LaterMemberRefused(f, named, ms);
    } else {
      RunRefused(f, named, ms[0].value);
    }
  }

  lemma {:induction false} LaterMemberRefused(f: Format, named: Writer, ms: seq<Member>)
    requires ms != [] && Writable(f, ms[0].value) && !MembersWritable(f, ms[1..])
    requires named.levels != [] && Ready(named) && !Top(named).inArray
    ensures var next := After(f, named, ms[0].value);
            && Run(f, named, Accept(ms[0].value)) == Some(next) && next.levels != []
            && var r := Run(f, next, AcceptMembers(ms[1..]));
               r.Some? && r.value.os <= InObject(f, next, ms[1..]).os && |r.value.levels| >= |named.levels|
    decreases ms, 0
  {
    RunAccept(f, named, ms[0].value);
    RunMembersRefused(f, After(f, named, ms[0].value), ms[1..]);
  }

  // ------------------------------------------------------------------ whole texts

  const FRESH := Writer([], [], false, 0)

  /** From a fresh writer no assertion fails.  With no level left open and the compact text once the layout is
      erased it ends exactly when every double has a text; then the whole indented text is there, flushed,
      and otherwise a start of it. */
  lemma PrintsTree(f: Format, v: Value)
    requires IsWhitespace(f.indentChar)
    ensures var r := Run(f, FRESH, Accept(v));
            && r.Some? && r.value.os <= Pretty(f, v, 0)
            && (r.value.levels == [] && EraseLayout(r.value.os) == Compact(v) <==> Writable(f, v))
            && (Writable(f, v) ==> r.value == Writer(Pretty(f, v, 0), [], true, |Pretty(f, v, 0)|))
  {
    assert [] + Pretty(f, v, 0) == Pretty(f, v, 0);
    if Writable(f, v) {
      RunAccept(f, FRESH, v);
      PrettyIsCompact(f, v, 0);
    } else {
      RunRefused(f, FRESH, v);
      if v.Double? {
        RunOne(f, FRESH, EDouble(v.d));
      }
    }
  }
}
