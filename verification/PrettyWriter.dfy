/** The indenting writer as an object; its methods follow the state machine of PrettyPrint. */
module PrettyWriter {
  import opened Encodings
  import opened Dom
  import opened Events
  import opened PrettyPrint

  class IndentingWriter {
    const indentChar: char
    const indentCharCount: nat
    const singleLineArray: bool
    const nanAndInf: bool
    var os: seq<Piece>
    var levelStack: seq<Level>
    var hasRoot: bool
    var flushed: nat

    /** The constructor, SetIndent and SetFormatOptions; the write flag is a template argument. */
    constructor (indentChar: char, indentCharCount: nat, singleLineArray: bool, nanAndInf: bool)
      requires IsWhitespace(indentChar)
      ensures State() == FRESH && Options() == Format(indentChar, indentCharCount, singleLineArray, nanAndInf)
    {
      this.indentChar, this.indentCharCount, this.singleLineArray := indentChar, indentCharCount, singleLineArray;
      this.nanAndInf := nanAndInf;
      os, levelStack, hasRoot, flushed := [], [], false, 0;
    }

    function Options(): Format {
      Format(indentChar, indentCharCount, singleLineArray, nanAndInf)
    }

    function State(): Writer
      reads this
    {
      Writer(os, levelStack, hasRoot, flushed)
    }

    method Put(p: Piece)
      modifies `os
      ensures os == old(os) + [p]
    {
      os := os + [p];
    }

    method WriteIndent()
      modifies `os
      ensures os == old(os) + Indent(Options(), |levelStack|)
    {
      var count := |levelStack| * indentCharCount;
      var i := 0;
      while i < count
        invariant i <= count && os == old(os) + Indent(Options(), |levelStack|)[..i]
      {
        Put(Mark(indentChar));
        i := i + 1;
      }
    }

    method NewLineIndent()
      modifies `os
      ensures os == old(os) + NewLine(Options(), |levelStack|)
    {
      Put(Mark('\n'));
      ghost var before := os;
      WriteIndent();
      ConcatAssoc(old(os), [Mark('\n')], Indent(Options(), |levelStack|));
    }

    /** Separator, line break and indentation before a value or a name, and the count. */
    method PrettyPrefix(isString: bool)
      requires PrefixOf(Options(), State(), isString).Some?
      modifies `os, `levelStack, `hasRoot
      ensures PrefixOf(Options(), old(State()), isString) == Some(State())
    {
      if |levelStack| != 0 {
        var level := levelStack[|levelStack| - 1];
        if level.inArray {
          ElementPrefix(level);
        } else {
          MemberPrefix(level);
        }
        levelStack := levelStack[|levelStack| - 1 := level.(valueCount := level.valueCount + 1)];
      } else {
        hasRoot := true;
      }
    }

    method ElementPrefix(level: Level)
      modifies `os
      ensures os == old(os) + BeforeElement(Options(), level.valueCount, |levelStack|)
    {
      ghost var text: seq<Piece> := [];
      if level.valueCount > 0 {
        Put(Mark(','));
        text := [Mark(',')];
        if singleLineArray {
          Put(Mark(' '));
          text := [Mark(','), Mark(' ')];
        }
      }
      assert os == old(os) + text;
      ghost var line: seq<Piece> := [];
      if !singleLineArray {
        NewLineIndent();
        line := NewLine(Options(), |levelStack|);
      }
      ConcatAssoc(old(os), text, line);
      assert os == old(os) + text + line;
    }

    method MemberPrefix(level: Level)
      modifies `os
      ensures os == old(os) + if level.valueCount % 2 == 1 then [Mark(':'), Mark(' ')]
                              else BeforeMember(Options(), level.valueCount / 2, |levelStack|)
    {
      ghost var text: seq<Piece> := [Mark('\n')];
      if level.valueCount > 0 {
        if level.valueCount % 2 == 0 {
          Put(Mark(','));
          Put(Mark('\n'));
          text := [Mark(','), Mark('\n')];
        } else {
          Put(Mark(':'));
          Put(Mark(' '));
          text := [Mark(':'), Mark(' ')];
        }
      } else {
        Put(Mark('\n'));
      }
      assert os == old(os) + text;
      if level.valueCount % 2 == 0 {
        WriteIndent();
        ghost var indent := Indent(Options(), |levelStack|);
        ConcatAssoc(old(os), text, indent);
        ConcatAssoc(if level.valueCount > 0 then [Mark(',')] else [], [Mark('\n')], indent);
        assert text == (if level.valueCount > 0 then [Mark(',')] else []) + [Mark('\n')];
      }
    }

    method Flush()
      modifies `flushed
      ensures flushed == |os|
    {
      flushed := |os|;
    }

    method FlushAtEnd()
      modifies `flushed
      ensures State() == EndValue(old(State()))
    {
      if |levelStack| == 0 {
        Flush();
      }
    }

    /** The text of a leaf, which WriteDouble may refuse to put. */
    method WriteText(e: Event) returns (ok: bool)
      modifies `os
      ensures ok <==> !Refused(Options(), e)
      ensures os == if ok then old(os) + [Leaf(e)] else old(os)
    {
      if e.EDouble? && !e.d.Finite? && !nanAndInf {
        return false;
      }
      Put(Leaf(e));
      return true;
    }

    /** Null, Bool, the numbers, and String. */
    method WriteLeaf(e: Event) returns (ok: bool)
      requires e !in {EStartObject, EStartArray} && !e.EEndObject? && !e.EEndArray? && !e.EKey?
      requires Step(Options(), State(), e).Some?
      modifies this
      ensures Step(Options(), old(State()), e) == Some(State()) && (ok <==> !Refused(Options(), e))
    {
      PrettyPrefix(e.EString?);
      ok := WriteText(e);
      FlushAtEnd();
    }

    method Key(chars: seq<Byte>, copy: bool) returns (ok: bool)
      requires Step(Options(), State(), EKey(chars, copy)).Some?
      modifies this
      ensures Step(Options(), old(State()), EKey(chars, copy)) == Some(State()) && ok
    {
      ok := WriteLeaf(EString(chars, copy));
    }

    method StartObject()
      requires Step(Options(), State(), EStartObject).Some?
      modifies this
      ensures Step(Options(), old(State()), EStartObject) == Some(State())
    {
      PrettyPrefix(false);
      levelStack := levelStack + [Level(false, 0)];
      Put(Mark('{'));
    }

    method StartArray()
      requires Step(Options(), State(), EStartArray).Some?
      modifies this
      ensures Step(Options(), old(State()), EStartArray) == Some(State())
    {
      PrettyPrefix(false);
      levelStack := levelStack + [Level(true, 0)];
      Put(Mark('['));
    }

    method EndObject(memberCount: nat)
      requires Step(Options(), State(), EEndObject(memberCount)).Some?
      modifies this
      ensures Step(Options(), old(State()), EEndObject(memberCount)) == Some(State())
    {
      var empty := levelStack[|levelStack| - 1].valueCount == 0;
      levelStack := levelStack[..|levelStack| - 1];
      if !empty {
        NewLineIndent();
      }
      Put(Mark('}'));
      ghost var line := if empty then [] else NewLine(Options(), |levelStack|);
      assert os == old(os) + line + [Mark('}')];
      ConcatAssoc(old(os), line, [Mark('}')]);
      FlushAtEnd();
      if |levelStack| == 0 {
        Flush();
      }
    }

    method EndArray(elementCount: nat)
      requires Step(Options(), State(), EEndArray(elementCount)).Some?
      modifies this
      ensures Step(Options(), old(State()), EEndArray(elementCount)) == Some(State())
    {
      var empty := levelStack[|levelStack| - 1].valueCount == 0;
      levelStack := levelStack[..|levelStack| - 1];
      if !empty && !singleLineArray {
        NewLineIndent();
      }
      Put(Mark(']'));
      ghost var line := if empty || singleLineArray then [] else NewLine(Options(), |levelStack|);
      assert os == old(os) + line + [Mark(']')];
      ConcatAssoc(old(os), line, [Mark(']')]);
      FlushAtEnd();
      if |levelStack| == 0 {
        Flush();
      }
    }

    method Handle(e: Event) returns (ok: bool)
      requires Step(Options(), State(), e).Some?
      modifies this
      ensures Step(Options(), old(State()), e) == Some(State()) && (ok <==> !Refused(Options(), e))
    {
      ok := true;
      match e {
        case EStartObject => StartObject();
        case EStartArray => StartArray();
        case EEndObject(n) => EndObject(n);
        case EEndArray(n) => EndArray(n);
        case EKey(chars, copy) => ok := Key(chars, copy);
        case _ => ok := WriteLeaf(e);
      }
    }

    /** A run of events none of which breaks an assertion, up to the first that is refused. */
    method HandleAll(events: seq<Event>) returns (ok: bool)
      requires Run(Options(), State(), events).Some?
      modifies this
      ensures Run(Options(), old(State()), events) == Some(State()) && (ok <==> AllWritten(Options(), events))
    {
      ghost var goal := Run(Options(), State(), events);
      var k := 0;
      assert events[0..] == events;
      while k < |events|
        invariant k <= |events| && Run(Options(), State(), events[k..]) == goal
        invariant forall i | 0 <= i < k :: !Refused(Options(), events[i])
      {
        ghost var here := events[k..];
        assert here[0] == events[k] && here[1..] == events[k + 1..];
        ok := Handle(events[k]);
        if !ok {
          return;
        }
        k := k + 1;
      }
      assert events[k..] == [];
      return true;
    }

    /** Driving a fresh writer with the events of any tree breaks no assertion.  It succeeds exactly when
        every double has a text; and exactly then no level is left open and the output without its layout is
        the compact text of the tree.  What is put is the indented text, or a start of it. */
    method Print(v: Value) returns (ok: bool)
      requires State() == FRESH && IsWhitespace(indentChar)
      modifies this
      ensures ok <==> Writable(Options(), v)
      ensures ok <==> levelStack == [] && EraseLayout(os) == Compact(v)
      ensures ok ==> os == Pretty(Options(), v, 0) && hasRoot && flushed == |os|
      ensures os <= Pretty(Options(), v, 0)
    {
      PrintsTree(Options(), v);
      WritableIsWritten(Options(), v);
      ok := HandleAll(Accept(v));
    }
  }
}
