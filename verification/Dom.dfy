/** The value tree, its integer constructors, and its equality. */
module Dom {
  import opened Encodings

  const TWO31 := 0x8000_0000
  const TWO32 := 0x1_0000_0000
  const TWO63 := 0x8000_0000_0000_0000
  const TWO64 := 0x1_0000_0000_0000_0000

  type Int32 = x: int | -TWO31 <= x < TWO31
  type Uint32 = x: int | 0 <= x < TWO32
  type Int64 = x: int | -TWO63 <= x < TWO63
  type Uint64 = x: int | 0 <= x < TWO64

  /** Which integer types can represent a number. */
  datatype Flags = Flags(isInt: bool, isUint: bool, isInt64: bool, isUint64: bool)

  /** A double: how it rounds is not modelled. */
  datatype Float = Finite(r: real) | Infinite(negative: bool) | NotANumber

  datatype Value =
    | Null
    | Bool(b: bool)
    | Number(bits: Uint64, flags: Flags)
    | Double(d: Float)
    | String(chars: seq<Byte>, copied: bool)
    | Array(elements: seq<Value>)
    | Object(members: seq<Member>)

  datatype Member = Member(name: seq<Byte>, nameCopied: bool, value: Value)

  // ------------------------------------------------------------------ integers

  function FromInt(i: Int32): Value {
    Number(i % TWO64, Flags(true, i >= 0, true, i >= 0))
  }

  function FromUint(u: Uint32): Value {
    Number(u, Flags(u < TWO31, true, true, true))
  }

  function FromInt64(i: Int64): Value {
    Number(i % TWO64, Flags(if i >= 0 then i < TWO31 else i >= -TWO31, i >= 0 && i < TWO32, true, i >= 0))
  }

  function FromUint64(u: Uint64): Value {
    Number(u, Flags(u < TWO31, u < TWO32, u < TWO63, true))
  }

  predicate IsInteger(x: int) {
    -TWO63 <= x < TWO64
  }

  /** The number for an integer, with a flag for each type that can hold it. */
  function NumberOf(x: int): Value
    requires IsInteger(x)
  {
    Number(x % TWO64, Flags(-TWO31 <= x < TWO31, 0 <= x < TWO32, -TWO63 <= x < TWO63, 0 <= x))
  }

  /** Whichever constructor made it, a number knows exactly the types that can represent it. */
  lemma ConstructorsAgree(x: int)
    ensures -TWO31 <= x < TWO31 ==> FromInt(x) == NumberOf(x)
    ensures 0 <= x < TWO32 ==> FromUint(x) == NumberOf(x)
    ensures -TWO63 <= x < TWO63 ==> FromInt64(x) == NumberOf(x)
    ensures 0 <= x < TWO64 ==> FromUint64(x) == NumberOf(x)
  {
  }

  /** The flags of a number, and its 64 bits. */
  lemma FlagsOfNumber(x: int)
    requires IsInteger(x)
    ensures var n := NumberOf(x);
            && (n.flags.isInt <==> -0x8000_0000 <= x <= 0x7FFF_FFFF)
            && (n.flags.isUint <==> 0 <= x <= 0xFFFF_FFFF)
            && (n.flags.isInt64 <==> x <= 0x7FFF_FFFF_FFFF_FFFF)
            && (n.flags.isUint64 <==> x >= 0)
            && n.bits == if x >= 0 then x else x + 0x1_0000_0000_0000_0000
  {
  }

  /** The two's complement reading of the low bits. */
  function Signed(bits: nat, width: nat): int
    requires width > 0
  {
    if bits % width < width / 2 then bits % width else bits % width - width
  }

  // ------------------------------------------------------------------ trees

  /** Every number in the tree came from a constructor. */
  ghost predicate Built(v: Value) {
    match v
    case Number(_, _) => exists x :: IsInteger(x) && v == NumberOf(x)
    case Array(es) => forall k | 0 <= k < |es| :: Built(es[k])
    case Object(ms) => forall k | 0 <= k < |ms| :: Built(ms[k].value)
    case _ => true
  }

  ghost predicate DistinctNames(ms: seq<Member>) {
    forall i, j | 0 <= i < j < |ms| :: ms[i].name != ms[j].name
  }

  /** No duplicate member names, at any depth. */
  ghost predicate Unambiguous(v: Value) {
    match v
    case Array(es) => forall k | 0 <= k < |es| :: Unambiguous(es[k])
    case Object(ms) => DistinctNames(ms) && forall k | 0 <= k < |ms| :: Unambiguous(ms[k].value)
    case _ => true
  }

  ghost predicate NoDoubles(v: Value) {
    match v
    case Double(_) => false
    case Array(es) => forall k | 0 <= k < |es| :: NoDoubles(es[k])
    case Object(ms) => forall k | 0 <= k < |ms| :: NoDoubles(ms[k].value)
    case _ => true
  }

  /** Every double in the tree is a number, which may be infinite. */
  ghost predicate AllNumbers(v: Value) {
    match v
    case Double(d) => d != NotANumber
    case Array(es) => forall k | 0 <= k < |es| :: AllNumbers(es[k])
    case Object(ms) => forall k | 0 <= k < |ms| :: AllNumbers(ms[k].value)
    case _ => true
  }

  ghost predicate Tidy(v: Value) {
    Unambiguous(v) && NoDoubles(v)
  }

  ghost predicate TidyValues(ms: seq<Member>) {
    forall k | 0 <= k < |ms| :: Tidy(ms[k].value)
  }

  /** The position of the first member with a name, or the end. */
  function FindMember(ms: seq<Member>, name: seq<Byte>): (k: nat)
    ensures k <= |ms|
    ensures forall j | 0 <= j < k :: ms[j].name != name
    ensures k < |ms| ==> ms[k].name == name
  {
    if ms == [] || ms[0].name == name then 0 else 1 + FindMember(ms[1..], name)
  }

  /** The search loop. */
  method FindMemberLoop(ms: seq<Member>, name: seq<Byte>) returns (k: nat)
    ensures k == FindMember(ms, name)
  {
    k := 0;
    while k < |ms| && ms[k].name != name
      invariant k <= |ms| && forall j | 0 <= j < k :: ms[j].name != name
    {
      k := k + 1;
    }
    FirstIsUnique(ms, name, k);
  }

  lemma FirstIsUnique(ms: seq<Member>, name: seq<Byte>, k: nat)
    requires k <= |ms| && forall j | 0 <= j < k :: ms[j].name != name
    requires k < |ms| ==> ms[k].name == name
    ensures FindMember(ms, name) == k
  {
  }

  // ------------------------------------------------------------------ equality

  /** How an integer converts to a double; nothing is known about it. */
  type Rounding = int -> real

  function AsDouble(v: Value, rounding: Rounding): Float
    requires v.Number? || v.Double?
  {
    if v.Double? then v.d
    else if v.flags.isInt64 then Finite(rounding(Signed(v.bits, TWO64)))
    else Finite(rounding(v.bits))
  }

  /** The order of the doubles; what is not a number is in no order with anything. */
  predicate AtMost(a: Float, b: Float) {
    match (a, b)
    case (NotANumber, _) => false
    case (_, NotANumber) => false
    case (Finite(x), Finite(y)) => x <= y
    case (Infinite(negative), _) => negative || b == a
    case (_, Infinite(negative)) => !negative
  }

  /** The comparison that the operator makes. */
  predicate SameFloat(a: Float, b: Float) {
    AtMost(b, a) && AtMost(a, b)
  }

  lemma SameFloatIsEquality(a: Float, b: Float)
    ensures SameFloat(a, b) <==> a == b && a != NotANumber
  {
  }

  /** The equality operator: members of the left object are searched in the right one; numbers are
      compared by their 64 bits unless one of them is a double. */
  predicate Equal(a: Value, b: Value, rounding: Rounding)
    decreases a
  {
    match (a, b)
    case (Object(ms), Object(ns)) =>
      |ms| == |ns| && forall k | 0 <= k < |ms| ::
        var j := FindMember(ns, ms[k].name); j < |ns| && Equal(ms[k].value, ns[j].value, rounding)
    case (Array(es), Array(fs)) =>
      |es| == |fs| && forall k | 0 <= k < |es| :: Equal(es[k], fs[k], rounding)
    case (String(s, _), String(t, _)) => s == t
    case (Null, Null) => true
    case (Bool(x), Bool(y)) => x == y
    case (Number(x, _), Number(y, _)) => x == y
    case (Double(_), Double(_)) => SameFloat(AsDouble(a, rounding), AsDouble(b, rounding))
    case (Double(_), Number(_, _)) => SameFloat(AsDouble(a, rounding), AsDouble(b, rounding))
    case (Number(_, _), Double(_)) => SameFloat(AsDouble(a, rounding), AsDouble(b, rounding))
    case _ => false
  }

  /** The operator with its loops and early exits. */
  method Equals(a: Value, b: Value, rounding: Rounding) returns (r: bool)
    ensures r == Equal(a, b, rounding)
    decreases a
  {
    match a {
      case Object(ms) =>
        if !b.Object? || |ms| != |b.members| {
          return false;
        }
        var k := 0;
        while k < |ms|
          invariant k <= |ms|
          invariant forall i | 0 <= i < k ::
                      var j := FindMember(b.members, ms[i].name);
                      j < |b.members| && Equal(ms[i].value, b.members[j].value, rounding)
        {
          var j := FindMemberLoop(b.members, ms[k].name);
          if j == |b.members| {
            return false;
          }
          var same := Equals(ms[k].value, b.members[j].value, rounding);
          if !same {
            return false;
          }
          k := k + 1;
        }
        return true;
      case Array(es) =>
        if !b.Array? || |es| != |b.elements| {
          return false;
        }
        var k := 0;
        while k < |es|
          invariant k <= |es| && forall i | 0 <= i < k :: Equal(es[i], b.elements[i], rounding)
        {
          var same := Equals(es[k], b.elements[k], rounding);
          if !same {
            return false;
          }
          k := k + 1;
        }
        return true;
      case String(s, _) =>
        return b.String? && s == b.chars;
      case Number(x, _) =>
        if b.Double? {
          return SameFloat(AsDouble(a, rounding), AsDouble(b, rounding));
        }
        return b.Number? && x == b.bits;
      case Double(_) =>
        return (b.Double? || b.Number?) && SameFloat(AsDouble(a, rounding), AsDouble(b, rounding));
      case Bool(x) =>
        return b.Bool? && x == b.b;
      case Null =>
        return b.Null?;
    }
  }

  /** A tree without duplicate names equals itself exactly when every double in it is a number. */
  lemma {:induction false} EqualReflexive(a: Value, rounding: Rounding)
    requires Unambiguous(a)
    ensures Equal(a, a, rounding) <==> AllNumbers(a)
  {
    match a
    case Object(ms) =>
      forall k | 0 <= k < |ms|
        ensures FindMember(ms, ms[k].name) == k
        ensures Equal(ms[k].value, ms[k].value, rounding) <==> AllNumbers(ms[k].value)
      {
        FirstIsUnique(ms, ms[k].name, k);
        EqualReflexive(ms[k].value, rounding);
      }
    case Array(es) =>
      forall k | 0 <= k < |es|
        ensures Equal(es[k], es[k], rounding) <==> AllNumbers(es[k])
      {
        EqualReflexive(es[k], rounding);
      }
    case _ =>
  }

  ghost function NameSet(ms: seq<Member>): set<seq<Byte>> {
    set k | 0 <= k < |ms| :: ms[k].name
  }

  lemma NameSetStep(init: seq<Member>, last: Member)
    ensures NameSet(init + [last]) == NameSet(init) + {last.name}
  {
    var ms := init + [last];
    forall n | n in NameSet(ms)
      ensures n in NameSet(init) + {last.name}
    {
      var k :| 0 <= k < |ms| && ms[k].name == n;
      assert k < |init| ==> init[k].name == n;
    }
    forall n | n in NameSet(init)
      ensures n in NameSet(ms)
    {
      var k :| 0 <= k < |init| && init[k].name == n;
      assert ms[k].name == n;
    }
    assert ms[|init|].name in NameSet(ms);
  }

  lemma DistinctStep(init: seq<Member>, last: Member)
    ensures DistinctNames(init + [last]) <==> DistinctNames(init) && last.name !in NameSet(init)
  {
    var ms := init + [last];
    if DistinctNames(ms) {
      forall k | 0 <= k < |init|
        ensures init[k].name != last.name
      {
        assert ms[k].name != ms[|init|].name;
      }
      forall i, j | 0 <= i < j < |init|
        ensures init[i].name != init[j].name
      {
        assert ms[i].name != ms[j].name;
      }
    }
    if DistinctNames(init) && last.name !in NameSet(init) {
      forall i, j | 0 <= i < j < |ms|
        ensures ms[i].name != ms[j].name
      {
        assert init[i].name in NameSet(init);
      }
    }
  }

  lemma {:induction false} NameSetSize(ms: seq<Member>)
    ensures |NameSet(ms)| <= |ms|
    ensures |NameSet(ms)| == |ms| <==> DistinctNames(ms)
  {
    if ms != [] {
      var init, last := ms[..|ms| - 1], ms[|ms| - 1];
      assert ms == init + [last];
      NameSetSize(init);
      NameSetStep(init, last);
      DistinctStep(init, last);
      if last.name in NameSet(init) {
        assert NameSet(init) + {last.name} == NameSet(init);
      }
    }
  }

  /** Pigeonhole: as many members, every name of the first among the distinct names of the second,
      and the first names distinct too.  Then every name of the second is among those of the first. */
  lemma NamesCovered(ms: seq<Member>, ns: seq<Member>, j: nat)
    requires |ms| == |ns| && DistinctNames(ms) && j < |ns|
    requires forall k | 0 <= k < |ms| :: FindMember(ns, ms[k].name) < |ns|
    ensures FindMember(ms, ns[j].name) < |ms|
    ensures DistinctNames(ns)
  {
    NameSetSize(ms);
    NameSetSize(ns);
    forall n | n in NameSet(ms)
      ensures n in NameSet(ns)
    {
      var k :| 0 <= k < |ms| && ms[k].name == n;
      assert ns[FindMember(ns, n)].name == n;
    }
    SubsetOfSameSize(NameSet(ms), NameSet(ns));
    assert ns[j].name in NameSet(ms);
    var k :| 0 <= k < |ms| && ms[k].name == ns[j].name;
  }

  lemma SubsetOfSameSize<T>(a: set<T>, b: set<T>)
    requires a <= b && |a| >= |b|
    ensures a == b
  {
    assert |b - a| == |b| - |a|;
  }

  lemma {:induction false} EqualSymmetric(a: Value, b: Value, rounding: Rounding)
    requires Unambiguous(a) && Unambiguous(b) && Equal(a, b, rounding)
    ensures Equal(b, a, rounding)
    decreases a
  {
    match a
    case Object(ms) =>
      var ns := b.members;
      forall j | 0 <= j < |ns|
        ensures var i := FindMember(ms, ns[j].name); i < |ms| && Equal(ns[j].value, ms[i].value, rounding)
      {
        NamesCovered(ms, ns, j);
        var i := FindMember(ms, ns[j].name);
        FirstIsUnique(ns, ms[i].name, j);
        EqualSymmetric(ms[i].value, ns[j].value, rounding);
      }
    case Array(es) =>
      forall k | 0 <= k < |es|
        ensures Equal(b.elements[k], es[k], rounding)
      {
        EqualSymmetric(es[k], b.elements[k], rounding);
      }
    case _ =>
  }

  lemma {:induction false} EqualTransitive(a: Value, b: Value, c: Value, rounding: Rounding)
    requires NoDoubles(a) && NoDoubles(b) && NoDoubles(c) && Equal(a, b, rounding) && Equal(b, c, rounding)
    ensures Equal(a, c, rounding)
    decreases a
  {
    match a
    case Object(ms) =>
      forall i | 0 <= i < |ms|
        ensures var k := FindMember(c.members, ms[i].name);
                k < |c.members| && Equal(ms[i].value, c.members[k].value, rounding)
      {
        var j := FindMember(b.members, ms[i].name);
        var k := FindMember(c.members, b.members[j].name);
        EqualTransitive(ms[i].value, b.members[j].value, c.members[k].value, rounding);
      }
    case Array(es) =>
      forall k | 0 <= k < |es|
        ensures Equal(es[k], c.elements[k], rounding)
      {
        EqualTransitive(es[k], b.elements[k], c.elements[k], rounding);
      }
    case _ =>
  }

  /** The order of the members does not matter. */
  lemma EqualIgnoresOrder(ms: seq<Member>, ns: seq<Member>, rounding: Rounding)
    requires Unambiguous(Object(ms)) && AllNumbers(Object(ms)) && multiset(ms) == multiset(ns)
    ensures Equal(Object(ms), Object(ns), rounding)
  {
    assert |ms| == |multiset(ms)| == |multiset(ns)| == |ns|;
    forall m | m in ms
      ensures m in ns
    {
      assert m in multiset(ms);
    }
    forall n | n in ns
      ensures n in ms
    {
      assert n in multiset(ns);
    }
    forall k | 0 <= k < |ms|
      ensures var j := FindMember(ns, ms[k].name); j < |ns| && Equal(ms[k].value, ns[j].value, rounding)
    {
      assert ms[k] in ns;
      var j := FindMember(ns, ms[k].name);
      assert ns[j] in ms;
      var i :| 0 <= i < |ms| && ms[i] == ns[j];
      assert i == k;
      EqualReflexive(ms[k].value, rounding);
    }
  }

  /** Members of one object that share a name have equal values. */
  ghost predicate SameNameSameValue(ms: seq<Member>, rounding: Rounding) {
    forall i, j | 0 <= i < |ms| && 0 <= j < |ms| && ms[i].name == ms[j].name ::
      Equal(ms[i].value, ms[j].value, rounding)
  }

  /** The documentation says that an object with a duplicate name compares unequal to every object.
      On the left-hand side that holds exactly when two members share a name but not a value;
      otherwise the object compares equal, at least to itself. */
  lemma DuplicatesOnTheLeft(ms: seq<Member>, rounding: Rounding)
    requires TidyValues(ms)
    ensures (forall ns: seq<Member> | TidyValues(ns) :: !Equal(Object(ms), Object(ns), rounding))
            <==> !SameNameSameValue(ms, rounding)
  {
    if SameNameSameValue(ms, rounding) {
      forall k | 0 <= k < |ms|
        ensures var j := FindMember(ms, ms[k].name); j < |ms| && Equal(ms[k].value, ms[j].value, rounding)
      {
      }
      assert Equal(Object(ms), Object(ms), rounding);
    }
    forall ns: seq<Member> | TidyValues(ns) && Equal(Object(ms), Object(ns), rounding)
      ensures SameNameSameValue(ms, rounding)
    {
      forall i, j | 0 <= i < |ms| && 0 <= j < |ms| && ms[i].name == ms[j].name
        ensures Equal(ms[i].value, ms[j].value, rounding)
      {
        var w := ns[FindMember(ns, ms[i].name)].value;
        EqualSymmetric(ms[j].value, w, rounding);
        EqualTransitive(ms[i].value, w, ms[j].value, rounding);
      }
    }
  }

  ghost predicate EqualsAllNamed(ms: seq<Member>, name: seq<Byte>, w: Value, rounding: Rounding) {
    forall i | 0 <= i < |ms| && ms[i].name == name :: Equal(ms[i].value, w, rounding)
  }

  /** The values under one name have a value that they all equal. */
  ghost predicate InCommon(ms: seq<Member>, name: seq<Byte>, rounding: Rounding) {
    exists w :: EqualsAllNamed(ms, name, w, rounding)
  }

  ghost predicate CommonValues(ms: seq<Member>, rounding: Rounding) {
    forall k | 0 <= k < |ms| :: InCommon(ms, ms[k].name, rounding)
  }

  ghost function CommonValue(ms: seq<Member>, name: seq<Byte>, rounding: Rounding): Value
    requires InCommon(ms, name, rounding)
  {
    var w :| EqualsAllNamed(ms, name, w, rounding);
    w
  }

  /** For all members, doubles and nested duplicates included: the object equals some object exactly when
      the values under each name have a common value that they equal. */
  lemma EqualsSomething(ms: seq<Member>, rounding: Rounding)
    ensures (exists ns: seq<Member> :: Equal(Object(ms), Object(ns), rounding)) <==> CommonValues(ms, rounding)
  {
    if ns: seq<Member> :| Equal(Object(ms), Object(ns), rounding) {
      forall k | 0 <= k < |ms|
        ensures InCommon(ms, ms[k].name, rounding)
      {
        var w := ns[FindMember(ns, ms[k].name)].value;
        assert EqualsAllNamed(ms, ms[k].name, w, rounding);
      }
    }
    if CommonValues(ms, rounding) {
      CommonValuesEqual(ms, seq(|ms|, k requires 0 <= k < |ms| =>
        Member(ms[k].name, true, CommonValue(ms, ms[k].name, rounding))), rounding);
    }
  }

  lemma CommonValuesEqual(ms: seq<Member>, ns: seq<Member>, rounding: Rounding)
    requires |ns| == |ms| && forall k | 0 <= k < |ms| :: ns[k].name == ms[k].name
    requires forall k | 0 <= k < |ms| :: EqualsAllNamed(ms, ns[k].name, ns[k].value, rounding)
    ensures Equal(Object(ms), Object(ns), rounding)
  {
    forall k | 0 <= k < |ms|
      ensures var j := FindMember(ns, ms[k].name); j < |ns| && Equal(ms[k].value, ns[j].value, rounding)
    {
      assert ns[k].name == ms[k].name;
    }
  }

  /** On the right-hand side a duplicate name always makes a duplicate-free object unequal. */
  lemma DuplicatesOnTheRight(ms: seq<Member>, ns: seq<Member>, rounding: Rounding)
    requires DistinctNames(ms) && !DistinctNames(ns)
    ensures !Equal(Object(ms), Object(ns), rounding)
  {
    if Equal(Object(ms), Object(ns), rounding) {
      NamesCovered(ms, ns, 0);
      assert false;
    }
  }

  /** {"a":1,"a":1} == {"a":1,"b":2}, but not the other way round. */
  lemma DuplicateExample(rounding: Rounding)
    ensures var one, two := NumberOf(1), NumberOf(2);
            var x := Object([Member([97], true, one), Member([97], true, one)]);
            var y := Object([Member([97], true, one), Member([98], true, two)]);
            Equal(x, y, rounding) && !Equal(y, x, rounding)
  {
    var ms := [Member([97], true, NumberOf(1)), Member([97], true, NumberOf(1))];
    var ns := [Member([97], true, NumberOf(1)), Member([98], true, NumberOf(2))];
    assert ms[0].name == ms[1].name == ns[0].name == [97] && ns[1].name == [98];
    FirstIsUnique(ns, [97], 0);
    assert [98][0] != [97][0];
    FirstIsUnique(ms, [98], 2);
  }

  /** Two integers compare equal exactly when they agree modulo 2^64: the sign is not compared. */
  lemma IntegerEquality(x: int, y: int, rounding: Rounding)
    requires IsInteger(x) && IsInteger(y)
    ensures Equal(NumberOf(x), NumberOf(y), rounding) <==> x == y || x == y + TWO64 || y == x + TWO64
  {
  }

  /** Once an integer and a double compare by rounding, equality is not transitive. */
  lemma MixedComparison(x: int, y: int, rounding: Rounding)
    requires IsInteger(x) && IsInteger(y) && rounding(x) == rounding(y)
    requires x != y && x != y + TWO64 && y != x + TWO64
    ensures var d := Double(Finite(rounding(x)));
            && Equal(NumberOf(x), d, rounding) && Equal(d, NumberOf(y), rounding)
            && !Equal(NumberOf(x), NumberOf(y), rounding)
  {
  }
}
