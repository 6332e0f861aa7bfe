/** What the indenting writer's text is made of: the compact text, which the grammar of JSON reads back as the
    events of the tree, and the layout between its pieces. */
module PrettyLayout {
  import opened Encodings
  import opened Dom
  import opened Events
  import opened PrettyPrint

  // ------------------------------------------------------------------ reading the compact text

  /** What was read, and the pieces behind it. */
  datatype Read = Read(events: seq<Event>, count: nat, rest: seq<Piece>)

  /** A value of the grammar (sections 3 to 5 of RFC 8259): a text of its own, or elements or members in
      brackets. */
  function ReadValue(ps: seq<Piece>): (r: Option<Read>)
    ensures r.Some? ==> |r.value.rest| < |ps|
    decreases |ps|, 0
  {
    if ps == [] then None
    else if ps[0].Leaf? then Some(Read([ps[0].e], 1, ps[1..]))
    else if ps[0].c == '[' then
      match ReadElements(ps[1..], true)
      case None => None
      case Some(r) => Some(Read([EStartArray] + (r.events + [EEndArray(r.count)]), 1, r.rest))
    else if ps[0].c == '{' then
      match ReadMembers(ps[1..], true)
      case None => None
      case Some(r) => Some(Read([EStartObject] + (r.events + [EEndObject(r.count)]), 1, r.rest))
    else None
  }

  /** Values with commas between them, up to the closing bracket. */
  function ReadElements(ps: seq<Piece>, first: bool): (r: Option<Read>)
    ensures r.Some? ==> |r.value.rest| < |ps|
    decreases |ps|, 1
  {
    if first && ps != [] && ps[0] == Mark(']') then Some(Read([], 0, ps[1..]))
    else
      match ReadValue(ps)
      case None => None
      case Some(v) => ReadOn(v, Mark(']'), if v.rest != [] && v.rest[0] == Mark(',')
                                           then ReadElements(v.rest[1..], false) else None)
  }

  /** The same for members: a name, a colon and a value. */
  function ReadMembers(ps: seq<Piece>, first: bool): (r: Option<Read>)
    ensures r.Some? ==> |r.value.rest| < |ps|
    decreases |ps|, 1
  {
    if first && ps != [] && ps[0] == Mark('}') then Some(Read([], 0, ps[1..]))
    else if |ps| < 2 || !ps[0].Leaf? || !ps[0].e.EString? || ps[1] != Mark(':') then None
    else
      match ReadValue(ps[2..])
      case None => None
      case Some(v) =>
        var named := v.(events := [EKey(ps[0].e.chars, ps[0].e.copy)] + v.events);
        ReadOn(named, Mark('}'), if v.rest != [] && v.rest[0] == Mark(',') then ReadMembers(v.rest[1..], false) else None)
  }

  /** Behind a value, the closing bracket, or what was read behind the comma. */
  function ReadOn(v: Read, close: Piece, more: Option<Read>): (r: Option<Read>)
    ensures r.Some? ==> |r.value.rest| < |v.rest| || (more.Some? && r.value.rest == more.value.rest)
  {
    if v.rest != [] && v.rest[0] == close then Some(Read(v.events, 1, v.rest[1..]))
    else if more.None? then None
    else Some(Read(v.events + more.value.events, 1 + more.value.count, more.value.rest))
  }

  /** The compact text of a tree is read back as the events of the tree, whatever follows it. */
  lemma {:induction false} CompactReads(v: Value, tail: seq<Piece>)
    ensures ReadValue(Compact(v) + tail) == Some(Read(Accept(v), 1, tail))
    decreases v, 1
  {
    match v
    case Array(es) =>
      var inner := CompactElements(es) + ([Mark(']')] + tail);
      ElementsRead(es, tail);
      EnclosedBy(Mark('['), CompactElements(es), Mark(']'), tail);
      assert (Compact(v) + tail)[1..] == inner;
    case Object(ms) =>
      var inner := CompactMembers(ms) + ([Mark('}')] + tail);
      MembersRead(ms, tail);
      EnclosedBy(Mark('{'), CompactMembers(ms), Mark('}'), tail);
      assert (Compact(v) + tail)[1..] == inner;
    case _ =>
      assert (Compact(v) + tail)[1..] == tail;
  }

  lemma EnclosedBy(open: Piece, body: seq<Piece>, close: Piece, tail: seq<Piece>)
    ensures [open] + (body + [close]) + tail == [open] + (body + ([close] + tail))
  {
  }

  lemma {:induction false} ElementsRead(es: seq<Value>, tail: seq<Piece>)
    ensures ReadElements(CompactElements(es) + ([Mark(']')] + tail), true)
            == Some(Read(AcceptElements(es), |es|, tail))
    decreases es, 1
  {
    var end := [Mark(']')] + tail;
    assert end[0] == Mark(']') && end[1..] == tail;
    if es == [] {
      assert CompactElements(es) + end == end;
    } else {
      MoreElementsRead(es, tail, true);
    }
  }

  /** What follows the first element or member: the end, or a comma and more. */
  function Behind(last: bool, more: seq<Piece>, end: seq<Piece>): seq<Piece> {
    if last then end else [Mark(',')] + (more + end)
  }

  lemma ElementsText(es: seq<Value>, end: seq<Piece>)
    requires es != []
    ensures CompactElements(es) + end == Compact(es[0]) + Behind(|es| == 1, CompactElements(es[1..]), end)
  {
    if |es| > 1 {
      ConcatAssoc(Compact(es[0]), [Mark(',')] + CompactElements(es[1..]), end);
      ConcatAssoc([Mark(',')], CompactElements(es[1..]), end);
    }
  }

  lemma OneElement(es: seq<Value>)
    requires |es| == 1
    ensures AcceptElements(es) == Accept(es[0])
  {
    assert Accept(es[0]) + [] == Accept(es[0]);
  }

  lemma {:induction false} MoreElementsRead(es: seq<Value>, tail: seq<Piece>, first: bool)
    requires es != []
    ensures ReadElements(CompactElements(es) + ([Mark(']')] + tail), first)
            == Some(Read(AcceptElements(es), |es|, tail))
    decreases es, 0
  {
    var end := [Mark(']')] + tail;
    var behind := Behind(|es| == 1, CompactElements(es[1..]), end);
    assert end[0] == Mark(']') && end[1..] == tail;
    ElementsText(es, end);
    CompactReads(es[0], behind);
    if |es| == 1 {
      OneElement(es);
    } else {
      MoreElementsRead(es[1..], tail, false);
      assert behind[0] == Mark(',') && behind[1..] == CompactElements(es[1..]) + end;
    }
  }

  lemma {:induction false} MembersRead(ms: seq<Member>, tail: seq<Piece>)
    ensures ReadMembers(CompactMembers(ms) + ([Mark('}')] + tail), true)
            == Some(Read(AcceptMembers(ms), |ms|, tail))
    decreases ms, 1
  {
    var end := [Mark('}')] + tail;
    assert end[0] == Mark('}') && end[1..] == tail;
    if ms == [] {
      assert CompactMembers(ms) + end == end;
    } else {
      MoreMembersRead(ms, tail, true);
    }
  }

  lemma MembersText(ms: seq<Member>, end: seq<Piece>)
    requires ms != []
    ensures CompactMembers(ms) + end
            == [NameOf(ms[0]), Mark(':')]
               + (Compact(ms[0].value) + Behind(|ms| == 1, CompactMembers(ms[1..]), end))
  {
    var name, text := [NameOf(ms[0]), Mark(':')], Compact(ms[0].value);
    if |ms| > 1 {
      ConcatAssoc(name + text, [Mark(',')] + CompactMembers(ms[1..]), end);
      ConcatAssoc([Mark(',')], CompactMembers(ms[1..]), end);
    }
    ConcatAssoc(name, text, Behind(|ms| == 1, CompactMembers(ms[1..]), end));
  }

  lemma OneMember(ms: seq<Member>)
    requires |ms| == 1
    ensures AcceptMembers(ms) == [EKey(ms[0].name, ms[0].nameCopied)] + Accept(ms[0].value)
  {
    assert Accept(ms[0].value) + [] == Accept(ms[0].value);
  }

  lemma {:induction false} MoreMembersRead(ms: seq<Member>, tail: seq<Piece>, first: bool)
    requires ms != []
    ensures ReadMembers(CompactMembers(ms) + ([Mark('}')] + tail), first)
            == Some(Read(AcceptMembers(ms), |ms|, tail))
    decreases ms, 0
  {
    var end := [Mark('}')] + tail;
    var behind := Behind(|ms| == 1, CompactMembers(ms[1..]), end);
    assert end[0] == Mark('}') && end[1..] == tail;
    MembersText(ms, end);
    CompactReads(ms[0].value, behind);
    NameStep(ms[0], Compact(ms[0].value) + behind, first);
    if |ms| == 1 {
      OneMember(ms);
    } else {
      MemberFirst(ms);
      MoreMembersRead(ms[1..], tail, false);
      assert behind[0] == Mark(',') && behind[1..] == CompactMembers(ms[1..]) + end;
    }
  }

  /** A name and a colon in front of a value. */
  lemma NameStep(m: Member, text: seq<Piece>, first: bool)
    requires ReadValue(text).Some?
    ensures var v := ReadValue(text).value;
            ReadMembers([NameOf(m), Mark(':')] + text, first)
            == ReadOn(v.(events := [EKey(m.name, m.nameCopied)] + v.events), Mark('}'),
                      if v.rest != [] && v.rest[0] == Mark(',') then ReadMembers(v.rest[1..], false) else None)
  {
    assert ([NameOf(m), Mark(':')] + text)[2..] == text;
  }

  // ------------------------------------------------------------------ the layout

  /** A line break and the indentation of a depth. */
  function Line(f: Format, depth: nat): seq<Piece> {
    [Mark('\n')] + seq(depth * f.indentCharCount, _ => Mark(f.indentChar))
  }

  /** A piece as the one in front of the next: a bracket just opened, a comma, a colon, or the end of a value. */
  function Front(p: Piece): char {
    if p.Mark? && p.c in {'[', '{', ',', ':'} then p.c else 'v'
  }

  /** The brackets that are open behind a piece. */
  function OpenBehind(open: seq<char>, p: Piece): seq<char> {
    if p == Mark('[') || p == Mark('{') then open + [p.c]
    else if (p == Mark(']') || p == Mark('}')) && open != [] then open[..|open| - 1]
    else open
  }

  /** What stands between two pieces of the compact text.  A value or a name in brackets starts a line, indented
      by their number; a value behind its name does not, nor one in an array on a single line.  A closing bracket
      starts a line unless nothing is between the two. */
  function Gap(f: Format, open: seq<char>, front: char, p: Piece): seq<Piece> {
    if open == [] || p == Mark(',') || p == Mark(':') then []
    else
      var inLine := f.singleLineArray && open[|open| - 1] == '[';
      if p == Mark(']') || p == Mark('}') then
        if inLine || front == '[' || front == '{' then [] else Line(f, |open| - 1)
      else if front == ':' then [Mark(' ')]
      else if inLine then (if front == ',' then [Mark(' ')] else [])
      else Line(f, |open|)
  }

  /** The compact text with its gaps filled. */
  function Laid(f: Format, open: seq<char>, front: char, ps: seq<Piece>): seq<Piece>
    decreases |ps|
  {
    if ps == [] then []
    else Gap(f, open, front, ps[0]) + ([ps[0]] + Laid(f, OpenBehind(open, ps[0]), Front(ps[0]), ps[1..]))
  }

  lemma LaidStep(f: Format, open: seq<char>, front: char, p: Piece, rest: seq<Piece>)
    ensures Laid(f, open, front, [p] + rest)
            == Gap(f, open, front, p) + ([p] + Laid(f, OpenBehind(open, p), Front(p), rest))
  {
    assert ([p] + rest)[1..] == rest;
  }

  /** The gap in front of a value does not depend on the value. */
  function ValueGap(f: Format, open: seq<char>, front: char): seq<Piece> {
    Gap(f, open, front, Mark('['))
  }

  lemma {:induction false} LaidValue(f: Format, open: seq<char>, front: char, v: Value, tail: seq<Piece>)
    ensures Laid(f, open, front, Compact(v) + tail)
            == ValueGap(f, open, front) + (Pretty(f, v, |open|) + Laid(f, open, 'v', tail))
    decreases v, 1
  {
    match v
    case Array(es) =>
      var end := [Mark(']')] + tail;
      LaidElements(f, open + ['['], '[', es, 0, end);
      LaidArray(f, open, front, es, tail);
    case Object(ms) =>
      var end := [Mark('}')] + tail;
      LaidMembers(f, open + ['{'], '{', ms, 0, end);
      LaidObject(f, open, front, ms, tail);
    case _ =>
      LaidLeaf(f, open, front, v, tail);
  }

  lemma LaidLeaf(f: Format, open: seq<char>, front: char, v: Value, tail: seq<Piece>)
    requires !v.Array? && !v.Object?
    ensures Laid(f, open, front, LeafOf(v) + tail)
            == ValueGap(f, open, front) + (LeafOf(v) + Laid(f, open, 'v', tail))
  {
    LaidStep(f, open, front, LeafOf(v)[0], tail);
  }

  lemma LaidArray(f: Format, open: seq<char>, front: char, es: seq<Value>, tail: seq<Piece>)
    requires Laid(f, open + ['['], '[', Listed(0, es) + ([Mark(']')] + tail))
             == PrettyElements(f, es, 0, |open| + 1)
                + Laid(f, open + ['['], if es == [] then '[' else 'v', [Mark(']')] + tail)
    ensures Laid(f, open, front, Compact(Array(es)) + tail)
            == ValueGap(f, open, front) + (Pretty(f, Array(es), |open|) + Laid(f, open, 'v', tail))
  {
    LaidBrackets(f, open, front, '[', ']', CompactElements(es), PrettyElements(f, es, 0, |open| + 1), es == [], tail);
  }

  lemma LaidObject(f: Format, open: seq<char>, front: char, ms: seq<Member>, tail: seq<Piece>)
    requires Laid(f, open + ['{'], '{', ListedMembers(0, ms) + ([Mark('}')] + tail))
             == PrettyMembers(f, ms, 0, |open| + 1)
                + Laid(f, open + ['{'], if ms == [] then '{' else 'v', [Mark('}')] + tail)
    ensures Laid(f, open, front, Compact(Object(ms)) + tail)
            == ValueGap(f, open, front) + (Pretty(f, Object(ms), |open|) + Laid(f, open, 'v', tail))
  {
    LaidBrackets(f, open, front, '{', '}', CompactMembers(ms), PrettyMembers(f, ms, 0, |open| + 1), ms == [], tail);
  }

  /** Brackets around a body that is laid out as it should be. */
  lemma LaidBrackets(f: Format, open: seq<char>, front: char, start: char, close: char, body: seq<Piece>,
                     text: seq<Piece>, empty: bool, tail: seq<Piece>)
    requires (start == '[' && close == ']') || (start == '{' && close == '}')
    requires Laid(f, open + [start], start, body + ([Mark(close)] + tail))
             == text + Laid(f, open + [start], if empty then start else 'v', [Mark(close)] + tail)
    ensures var line := if empty || (start == '[' && f.singleLineArray) then [] else NewLine(f, |open|);
            Laid(f, open, front, [Mark(start)] + (body + [Mark(close)]) + tail)
            == ValueGap(f, open, front) + ([Mark(start)] + (text + (line + [Mark(close)])) + Laid(f, open, 'v', tail))
  {
    var line := if empty || (start == '[' && f.singleLineArray) then [] else NewLine(f, |open|);
    EnclosedBy(Mark(start), body, Mark(close), tail);
    LaidStep(f, open, front, Mark(start), body + ([Mark(close)] + tail));
    LaidStep(f, open + [start], if empty then start else 'v', Mark(close), tail);
    assert (open + [start])[..|open|] == open && (open + [start])[|open|] == start;
    LaidJoin(Mark(start), text, line, Mark(close), Laid(f, open, 'v', tail));
  }

  lemma LaidJoin(start: Piece, body: seq<Piece>, line: seq<Piece>, close: Piece, rest: seq<Piece>)
    ensures [start] + (body + (line + ([close] + rest))) == [start] + (body + (line + [close])) + rest
  {
  }

  /** The compact text of elements of which the first has number k. */
  function Listed(k: nat, es: seq<Value>): seq<Piece> {
    Separated(k, |es|, CompactElements(es))
  }

  lemma {:induction false} LaidElements(f: Format, open: seq<char>, front: char, es: seq<Value>, k: nat, tail: seq<Piece>)
    requires open != [] && open[|open| - 1] == '[' && front == if k == 0 then '[' else 'v'
    ensures Laid(f, open, front, Listed(k, es) + tail)
            == PrettyElements(f, es, k, |open|) + Laid(f, open, if es == [] then front else 'v', tail)
    decreases es, 0
  {
    if es == [] {
      assert Listed(k, es) + tail == tail && [] + Laid(f, open, front, tail) == Laid(f, open, front, tail);
    } else {
      var rest := Listed(k + 1, es[1..]) + tail;
      LaidElements(f, open, 'v', es[1..], k + 1, tail);
      LaidValue(f, open, if k > 0 then ',' else '[', es[0], rest);
      FirstElementLaid(f, open, front, es, k, tail);
      ElementsJoined(f, open, k, Laid(f, open, front, Listed(k, es) + tail),
                     Laid(f, open, if k > 0 then ',' else '[', Compact(es[0]) + rest), Pretty(f, es[0], |open|),
                     Laid(f, open, 'v', rest), PrettyElements(f, es[1..], k + 1, |open|), Laid(f, open, 'v', tail));
    }
  }

  lemma FirstElementLaid(f: Format, open: seq<char>, front: char, es: seq<Value>, k: nat, tail: seq<Piece>)
    requires open != [] && open[|open| - 1] == '[' && front == (if k == 0 then '[' else 'v') && es != []
    ensures Laid(f, open, front, Listed(k, es) + tail)
            == (if k > 0 then [Mark(',')] else [])
               + Laid(f, open, if k > 0 then ',' else '[', Compact(es[0]) + (Listed(k + 1, es[1..]) + tail))
  {
    ListedFirst(k, es, tail);
    CommaStep(f, open, front, k, Compact(es[0]) + (Listed(k + 1, es[1..]) + tail));
  }

  lemma CommaStep(f: Format, open: seq<char>, front: char, k: nat, text: seq<Piece>)
    requires front != ',' && (k == 0 ==> front in {'[', '{'})
    ensures Laid(f, open, front, (if k > 0 then [Mark(',')] else []) + text)
            == (if k > 0 then [Mark(',')] else []) + Laid(f, open, if k > 0 then ',' else front, text)
  {
    if k > 0 {
      LaidStep(f, open, front, Mark(','), text);
      assert Gap(f, open, front, Mark(',')) == [];
      assert [] + ([Mark(',')] + Laid(f, open, ',', text)) == [Mark(',')] + Laid(f, open, ',', text);
    } else {
      assert [] + text == text && [] + Laid(f, open, front, text) == Laid(f, open, front, text);
    }
  }

  lemma ElementGap(f: Format, open: seq<char>, k: nat)
    requires open != [] && open[|open| - 1] == '['
    ensures (if k > 0 then [Mark(',')] else []) + ValueGap(f, open, if k > 0 then ',' else '[')
            == BeforeElement(f, k, |open|)
  {
  }

  lemma ElementsJoined(f: Format, open: seq<char>, k: nat, all: seq<Piece>, value: seq<Piece>, text: seq<Piece>,
                       after: seq<Piece>, more: seq<Piece>, rest: seq<Piece>)
    requires open != [] && open[|open| - 1] == '['
    requires all == (if k > 0 then [Mark(',')] else []) + value && after == more + rest
    requires value == ValueGap(f, open, if k > 0 then ',' else '[') + (text + after)
    ensures all == BeforeElement(f, k, |open|) + (text + more) + rest
  {
    var comma, gap := if k > 0 then [Mark(',')] else [], ValueGap(f, open, if k > 0 then ',' else '[');
    ElementGap(f, open, k);
    ConcatAssoc(comma, gap, text + after);
    ConcatAssoc(text, more, rest);
    ConcatAssoc(comma + gap, text + more, rest);
  }

  lemma ListedFirst(k: nat, es: seq<Value>, tail: seq<Piece>)
    requires es != []
    ensures Listed(k, es) + tail
            == (if k > 0 then [Mark(',')] else []) + (Compact(es[0]) + (Listed(k + 1, es[1..]) + tail))
  {
  }

  /** The compact text of members of which the first has number k. */
  function ListedMembers(k: nat, ms: seq<Member>): seq<Piece> {
    Separated(k, |ms|, CompactMembers(ms))
  }

  lemma {:induction false} LaidMembers(f: Format, open: seq<char>, front: char, ms: seq<Member>, k: nat, tail: seq<Piece>)
    requires open != [] && open[|open| - 1] == '{' && front == if k == 0 then '{' else 'v'
    ensures Laid(f, open, front, ListedMembers(k, ms) + tail)
            == PrettyMembers(f, ms, k, |open|) + Laid(f, open, if ms == [] then front else 'v', tail)
    decreases ms, 0
  {
    if ms == [] {
      assert ListedMembers(k, ms) + tail == tail && [] + Laid(f, open, front, tail) == Laid(f, open, front, tail);
    } else {
      var rest := ListedMembers(k + 1, ms[1..]) + tail;
      var value := Compact(ms[0].value) + rest;
      LaidMembers(f, open, 'v', ms[1..], k + 1, tail);
      LaidValue(f, open, ':', ms[0].value, rest);
      FirstMemberLaid(f, open, front, ms, k, tail);
      MembersJoined(f, k, |open|, ms[0], Laid(f, open, front, ListedMembers(k, ms) + tail),
                    Laid(f, open, ':', value), Pretty(f, ms[0].value, |open|), Laid(f, open, 'v', rest),
                    PrettyMembers(f, ms[1..], k + 1, |open|), Laid(f, open, 'v', tail));
    }
  }

  lemma MembersFirst(k: nat, ms: seq<Member>, tail: seq<Piece>)
    requires ms != []
    ensures ListedMembers(k, ms) + tail
            == (if k > 0 then [Mark(',')] else [])
               + ([NameOf(ms[0]), Mark(':')] + (Compact(ms[0].value) + (ListedMembers(k + 1, ms[1..]) + tail)))
  {
  }

  /** A name starts a line; the colon follows it. */
  lemma LaidName(f: Format, open: seq<char>, front: char, m: Member, value: seq<Piece>)
    requires open != [] && open[|open| - 1] == '{' && front in {',', '{'}
    ensures Laid(f, open, front, [NameOf(m), Mark(':')] + value)
            == NewLine(f, |open|) + ([NameOf(m), Mark(':')] + Laid(f, open, ':', value))
  {
    assert [NameOf(m), Mark(':')] + value == [NameOf(m)] + ([Mark(':')] + value);
    LaidStep(f, open, front, NameOf(m), [Mark(':')] + value);
    LaidStep(f, open, 'v', Mark(':'), value);
    assert [NameOf(m)] + ([] + ([Mark(':')] + Laid(f, open, ':', value)))
           == [NameOf(m), Mark(':')] + Laid(f, open, ':', value);
  }

  /** The comma in front of it, if any, and the name with its colon. */
  lemma LaidHead(f: Format, open: seq<char>, front: char, k: nat, m: Member, value: seq<Piece>)
    requires open != [] && open[|open| - 1] == '{' && front == if k == 0 then '{' else 'v'
    ensures Laid(f, open, front, (if k > 0 then [Mark(',')] else []) + ([NameOf(m), Mark(':')] + value))
            == (if k > 0 then [Mark(',')] else [])
               + (NewLine(f, |open|) + ([NameOf(m), Mark(':')] + Laid(f, open, ':', value)))
  {
    CommaStep(f, open, front, k, [NameOf(m), Mark(':')] + value);
    LaidName(f, open, if k > 0 then ',' else '{', m, value);
  }

  lemma FirstMemberLaid(f: Format, open: seq<char>, front: char, ms: seq<Member>, k: nat, tail: seq<Piece>)
    requires open != [] && open[|open| - 1] == '{' && front == (if k == 0 then '{' else 'v') && ms != []
    ensures var value := Compact(ms[0].value) + (ListedMembers(k + 1, ms[1..]) + tail);
            Laid(f, open, front, ListedMembers(k, ms) + tail)
            == (if k > 0 then [Mark(',')] else [])
               + (NewLine(f, |open|) + ([NameOf(ms[0]), Mark(':')] + Laid(f, open, ':', value)))
  {
    MembersFirst(k, ms, tail);
    LaidHead(f, open, front, k, ms[0], Compact(ms[0].value) + (ListedMembers(k + 1, ms[1..]) + tail));
  }

  lemma MembersJoined(f: Format, k: nat, depth: nat, m: Member, all: seq<Piece>, value: seq<Piece>,
                      text: seq<Piece>, after: seq<Piece>, more: seq<Piece>, rest: seq<Piece>)
    requires all == (if k > 0 then [Mark(',')] else []) + (NewLine(f, depth) + ([NameOf(m), Mark(':')] + value))
    requires value == [Mark(' ')] + (text + after) && after == more + rest
    ensures all == BeforeMember(f, k, depth) + ([NameOf(m), Mark(':'), Mark(' ')] + (text + more)) + rest
  {
  }

  /** The indented text, for every format: the compact text with its gaps filled. */
  lemma PrettyIsLaid(f: Format, v: Value)
    ensures Pretty(f, v, 0) == Laid(f, [], 'v', Compact(v))
  {
    LaidValue(f, [], 'v', v, []);
    assert Compact(v) + [] == Compact(v) && [] + (Pretty(f, v, 0) + []) == Pretty(f, v, 0);
  }
}
