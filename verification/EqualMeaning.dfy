/** What the equality of values compares: at every place of the two trees, the kind and the content. */
module EqualMeaning {
  import opened Encodings
  import opened Dom

  /** A step into a tree. */
  datatype Key = Named(name: seq<Byte>) | Numbered(i: nat)

  /** The place that a path leads to; a name leads to its first member. */
  function Place(v: Value, path: seq<Key>): Option<Value> {
    if path == [] then Some(v)
    else
      match (v, path[0])
      case (Object(ms), Named(name)) =>
        var k := FindMember(ms, name);
        if k < |ms| then Place(ms[k].value, path[1..]) else None
      case (Array(es), Numbered(i)) => if i < |es| then Place(es[i], path[1..]) else None
      case _ => None
  }

  /** The integer that a number stands for. */
  function IntegerOf(bits: Uint64, flags: Flags): int {
    if flags.isInt64 && bits >= 0x8000_0000_0000_0000 then bits - 0x1_0000_0000_0000_0000 else bits
  }

  /** The same kind, and the same content without the children: characters, truth value, 64 bits of an integer,
      double, number of children.  A double is like an integer that rounds to it; NaN is like nothing. */
  predicate Alike(a: Value, b: Value, rounding: Rounding) {
    match (a, b)
    case (Null, Null) => true
    case (Bool(x), Bool(y)) => x == y
    case (Number(x, _), Number(y, _)) => x == y
    case (Double(d), Double(e)) => d == e && d != NotANumber
    case (Double(d), Number(x, flags)) => d == Finite(rounding(IntegerOf(x, flags)))
    case (Number(x, flags), Double(d)) => d == Finite(rounding(IntegerOf(x, flags)))
    case (String(s, _), String(t, _)) => s == t
    case (Array(es), Array(fs)) => |es| == |fs|
    case (Object(ms), Object(ns)) => |ms| == |ns|
    case _ => false
  }

  /** A place in both trees or in neither, and alike. */
  ghost predicate AlikeAt(a: Value, b: Value, path: seq<Key>, rounding: Rounding) {
    match (Place(a, path), Place(b, path))
    case (Some(x), Some(y)) => Alike(x, y, rounding)
    case (None, None) => true
    case _ => false
  }

  lemma EqualIsAlike(a: Value, b: Value, rounding: Rounding)
    ensures Equal(a, b, rounding) ==> Alike(a, b, rounding)
    ensures !a.Array? && !a.Object? && Alike(a, b, rounding) ==> Equal(a, b, rounding)
  {
    if (a.Number? || a.Double?) && (b.Number? || b.Double?) {
      SameFloatIsEquality(AsDouble(a, rounding), AsDouble(b, rounding));
    }
  }

  lemma {:induction false} EqualEverywhere(a: Value, b: Value, path: seq<Key>, rounding: Rounding)
    requires Unambiguous(a) && Equal(a, b, rounding)
    ensures AlikeAt(a, b, path, rounding)
    decreases |path|
  {
    if path == [] {
      EqualIsAlike(a, b, rounding);
    } else if a.Object? && path[0].Named? {
      MembersEverywhere(a.members, b.members, path, rounding);
    } else if a.Array? && path[0].Numbered? && path[0].i < |a.elements| {
      EqualEverywhere(a.elements[path[0].i], b.elements[path[0].i], path[1..], rounding);
    }
  }

  lemma {:induction false} MembersEverywhere(ms: seq<Member>, ns: seq<Member>, path: seq<Key>, rounding: Rounding)
    requires path != [] && path[0].Named? && Unambiguous(Object(ms)) && Equal(Object(ms), Object(ns), rounding)
    ensures AlikeAt(Object(ms), Object(ns), path, rounding)
    decreases |path|, 0
  {
    var k, j := FindMember(ms, path[0].name), FindMember(ns, path[0].name);
    if k < |ms| {
      assert ms[k].name == path[0].name;
      EqualEverywhere(ms[k].value, ns[j].value, path[1..], rounding);
    } else if j < |ns| {
      NamesCovered(ms, ns, j);
      assert false;
    }
  }

  lemma {:induction false} AlikeEverywhere(a: Value, b: Value, rounding: Rounding)
    requires Unambiguous(a) && forall path :: AlikeAt(a, b, path, rounding)
    ensures Equal(a, b, rounding)
    decreases a
  {
    assert AlikeAt(a, b, [], rounding);
    match a
    case Object(ms) =>
      var ns := b.members;
      forall k | 0 <= k < |ms|
        ensures var j := FindMember(ns, ms[k].name); j < |ns| && Equal(ms[k].value, ns[j].value, rounding)
      {
        FirstIsUnique(ms, ms[k].name, k);
        var key := Named(ms[k].name);
        StepsBelow(a, b, key, rounding);
        assert [key][1..] == [] && Place(a, [key]) == Some(ms[k].value);
        AlikeEverywhere(ms[k].value, ns[FindMember(ns, ms[k].name)].value, rounding);
      }
    case Array(es) =>
      forall k | 0 <= k < |es|
        ensures Equal(es[k], b.elements[k], rounding)
      {
        StepsBelow(a, b, Numbered(k), rounding);
        assert [Numbered(k)][1..] == [] && Place(a, [Numbered(k)]) == Some(es[k]);
        AlikeEverywhere(es[k], b.elements[k], rounding);
      }
    case _ =>
      EqualIsAlike(a, b, rounding);
  }

  /** The places below a child. */
  lemma StepsBelow(a: Value, b: Value, key: Key, rounding: Rounding)
    requires Place(a, [key]).Some? && forall path :: AlikeAt(a, b, path, rounding)
    ensures Place(b, [key]).Some?
    ensures forall path :: AlikeAt(Place(a, [key]).value, Place(b, [key]).value, path, rounding)
  {
    assert AlikeAt(a, b, [key], rounding);
    forall path
      ensures AlikeAt(Place(a, [key]).value, Place(b, [key]).value, path, rounding)
    {
      assert AlikeAt(a, b, [key] + path, rounding);
      PlaceBelow(a, key, path);
      PlaceBelow(b, key, path);
    }
  }

  lemma PlaceBelow(v: Value, key: Key, path: seq<Key>)
    ensures Place(v, [key] + path) == if Place(v, [key]).None? then None else Place(Place(v, [key]).value, path)
  {
    assert ([key] + path)[1..] == path && [key][1..] == [];
  }

  /** A tree without duplicate names equals another one exactly when every path leads to a place in both or in
      neither, and the places it leads to are alike. */
  lemma EqualMeans(a: Value, b: Value, rounding: Rounding)
    requires Unambiguous(a)
    ensures Equal(a, b, rounding) <==> forall path :: AlikeAt(a, b, path, rounding)
  {
    if Equal(a, b, rounding) {
      forall path
        ensures AlikeAt(a, b, path, rounding)
      {
        EqualEverywhere(a, b, path, rounding);
      }
    }
    if forall path :: AlikeAt(a, b, path, rounding) {
      AlikeEverywhere(a, b, rounding);
    }
  }

  /** A number stands for the integer it was made from. */
  lemma IntegerOfNumber(x: int)
    requires IsInteger(x)
    ensures IntegerOf(NumberOf(x).bits, NumberOf(x).flags) == x
  {
  }
}
