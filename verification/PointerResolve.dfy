/** Resolving a JSON Pointer in a value tree: Get, Create, Set, GetWithDefault and Erase.
    A position in the tree is the list of child numbers that leads to it. */
module PointerResolve {
  import opened Encodings
  import opened PointerSyntax
  import opened Dom

  const MINUS: Byte := '-' as int

  /** The name "-", which means "past the last element" for an array (section 4 of RFC 6901). */
  predicate IsDash(t: Token) {
    t.name == [MINUS]
  }

  /** "-" is not a numeral, so the parser and `Append` never give it an index. */
  predicate Consistent(ts: seq<Token>) {
    forall k | 0 <= k < |ts| && IsDash(ts[k]) :: ts[k].index == INVALID_INDEX
  }

  function Arity(v: Value): nat {
    match v
    case Object(ms) => |ms|
    case Array(es) => |es|
    case _ => 0
  }

  function Child(v: Value, i: nat): Value
    requires i < Arity(v)
  {
    match v
    case Object(ms) => ms[i].value
    case Array(es) => es[i]
  }

  function WithChild(v: Value, i: nat, c: Value): (r: Value)
    requires i < Arity(v)
    ensures Arity(r) == Arity(v) && Child(r, i) == c
    ensures forall j: nat | j < Arity(v) && j != i :: Child(r, j) == Child(v, j)
    ensures r.Object? == v.Object? && r.Array? == v.Array?
  {
    match v
    case Object(ms) => Object(ms[i := ms[i].(value := c)])
    case Array(es) => Array(es[i := c])
  }

  /** The child that a token resolves to. */
  function ChildIndex(v: Value, t: Token): (r: Option<nat>)
    ensures r.Some? ==> r.value < Arity(v)
  {
    match v
    case Object(ms) => if FindMember(ms, t.name) < |ms| then Some(FindMember(ms, t.name)) else None
    case Array(es) => if t.index == INVALID_INDEX || t.index >= |es| then None else Some(t.index)
    case _ => None
  }

  lemma ChildIndexStable(v: Value, i: nat, c: Value, t: Token)
    requires i < Arity(v)
    ensures ChildIndex(WithChild(v, i, c), t) == ChildIndex(v, t)
  {
    if v.Object? {
      var ns := WithChild(v, i, c).members;
      assert forall k | 0 <= k < |ns| :: ns[k].name == v.members[k].name;
      FirstIsUnique(ns, t.name, FindMember(v.members, t.name));
    }
  }

  // ------------------------------------------------------------------ Get

  function GetOf(v: Value, ts: seq<Token>): Option<Value> {
    if ts == [] then Some(v)
    else
      match ChildIndex(v, ts[0])
      case None => None
      case Some(i) => GetOf(Child(v, i), ts[1..])
  }

  lemma {:induction false} GetAppend(v: Value, p: seq<Token>, q: seq<Token>)
    ensures GetOf(v, p + q) == if GetOf(v, p).None? then None else GetOf(GetOf(v, p).value, q)
  {
    if p == [] {
      assert p + q == q;
    } else {
      assert (p + q)[1..] == p[1..] + q;
      if ChildIndex(v, p[0]).Some? {
        GetAppend(Child(v, ChildIndex(v, p[0]).value), p[1..], q);
      }
    }
  }

  // ------------------------------------------------------------------ positions

  predicate ValidPath(v: Value, path: seq<nat>) {
    path == [] || (path[0] < Arity(v) && ValidPath(Child(v, path[0]), path[1..]))
  }

  function AtPath(v: Value, path: seq<nat>): Value
    requires ValidPath(v, path)
  {
    if path == [] then v else AtPath(Child(v, path[0]), path[1..])
  }

  function PutAt(v: Value, path: seq<nat>, w: Value): Value
    requires ValidPath(v, path)
  {
    if path == [] then w else WithChild(v, path[0], PutAt(Child(v, path[0]), path[1..], w))
  }

  lemma {:induction false} PathExtends(v: Value, path: seq<nat>, i: nat)
    requires ValidPath(v, path) && i < Arity(AtPath(v, path))
    ensures ValidPath(v, path + [i]) && AtPath(v, path + [i]) == Child(AtPath(v, path), i)
  {
    if path == [] {
      assert path + [i] == [i] && [i][1..] == [];
    } else {
      PathExtends(Child(v, path[0]), path[1..], i);
      assert (path + [i])[1..] == path[1..] + [i];
    }
  }

  /** Writing at a position, then below it, is one write of the changed part. */
  lemma {:induction false} PutBelow(v: Value, path: seq<nat>, c: Value, i: nat, w: Value)
    requires ValidPath(v, path) && i < Arity(c)
    ensures ValidPath(PutAt(v, path, c), path) && AtPath(PutAt(v, path, c), path) == c
    ensures ValidPath(PutAt(v, path, c), path + [i])
    ensures PutAt(PutAt(v, path, c), path + [i], w) == PutAt(v, path, WithChild(c, i, w))
  {
    if path == [] {
      assert path + [i] == [i] && [i][1..] == [];
    } else {
      PutBelow(Child(v, path[0]), path[1..], c, i, w);
      assert (path + [i])[1..] == path[1..] + [i];
      WithChildTwice(v, path[0], PutAt(Child(v, path[0]), path[1..], c),
                     PutAt(Child(v, path[0]), path[1..], WithChild(c, i, w)));
    }
  }

  lemma WithChildTwice(v: Value, i: nat, c: Value, d: Value)
    requires i < Arity(v)
    ensures WithChild(WithChild(v, i, c), i, d) == WithChild(v, i, d)
    ensures WithChild(v, i, Child(v, i)) == v
  {
  }

  lemma {:induction false} PutBack(v: Value, path: seq<nat>)
    requires ValidPath(v, path)
    ensures PutAt(v, path, AtPath(v, path)) == v
  {
    if path != [] {
      PutBack(Child(v, path[0]), path[1..]);
      WithChildTwice(v, path[0], Child(v, path[0]), v);
    }
  }

  // ------------------------------------------------------------------ Create

  datatype Step = Step(value: Value, child: nat, existed: bool)

  function Nulls(n: nat): seq<Value> {
    seq(n, _ => Null)
  }

  /** One token of Create: the value changes type if the token asks for it, grows or gains a member. */
  function StepOf(v: Value, t: Token): (r: Step)
    ensures r.child < Arity(r.value)
  {
    if v.Array? && IsDash(t) then Step(Array(v.elements + [Null]), |v.elements|, false)
    else
      var w := if t.index == INVALID_INDEX then (if v.Object? then v else Object([]))
               else if !v.Array? && !v.Object? then Array([]) else v;
      match w
      case Array(es) =>
        if t.index >= |es| then Step(Array(es + Nulls(t.index + 1 - |es|)), t.index, false)
        else Step(w, t.index, true)
      case Object(ms) =>
        var k := FindMember(ms, t.name);
        if k == |ms| then Step(Object(ms + [Member(t.name, true, Null)]), k, false) else Step(w, k, true)
  }

  datatype Created = Created(value: Value, path: seq<nat>, existed: bool)

  function CreateOf(v: Value, ts: seq<Token>): (r: Created)
    ensures ValidPath(r.value, r.path)
    decreases |ts|
  {
    if ts == [] then Created(v, [], true)
    else
      var s := StepOf(v, ts[0]);
      var sub := CreateOf(Child(s.value, s.child), ts[1..]);
      Created(WithChild(s.value, s.child, sub.value), [s.child] + sub.path, s.existed && sub.existed)
  }

  function SetOf(v: Value, ts: seq<Token>, w: Value): Value {
    var r := CreateOf(v, ts);
    PutAt(r.value, r.path, w)
  }

  function GetWithDefaultOf(v: Value, ts: seq<Token>, w: Value): Value {
    if CreateOf(v, ts).existed then CreateOf(v, ts).value else SetOf(v, ts, w)
  }

  /** On the way, Create meets an array with the token "-" and appends to it. */
  predicate Appends(v: Value, ts: seq<Token>)
    decreases |ts|
  {
    ts != [] && ((v.Array? && IsDash(ts[0])) ||
                 Appends(Child(StepOf(v, ts[0]).value, StepOf(v, ts[0]).child), ts[1..]))
  }

  lemma SetOfStep(v: Value, ts: seq<Token>, w: Value)
    requires ts != []
    ensures var s := StepOf(v, ts[0]);
            SetOf(v, ts, w) == WithChild(s.value, s.child, SetOf(Child(s.value, s.child), ts[1..], w))
  {
    var s := StepOf(v, ts[0]);
    var c := Child(s.value, s.child);
    var sub := CreateOf(c, ts[1..]);
    assert ([s.child] + sub.path)[1..] == sub.path;
    WithChildTwice(s.value, s.child, sub.value, PutAt(sub.value, sub.path, w));
  }

  /** A token resolves exactly when Create finds its child, and then nothing is changed for it. */
  lemma StepExists(v: Value, t: Token)
    requires IsDash(t) ==> t.index == INVALID_INDEX
    ensures StepOf(v, t).existed <==> ChildIndex(v, t).Some?
    ensures StepOf(v, t).existed ==> StepOf(v, t).value == v && ChildIndex(v, t) == Some(StepOf(v, t).child)
    ensures !(v.Array? && IsDash(t)) ==> ChildIndex(StepOf(v, t).value, t) == Some(StepOf(v, t).child)
    ensures v.Array? && IsDash(t) ==> ChildIndex(StepOf(v, t).value, t).None?
    ensures !StepOf(v, t).existed ==> Child(StepOf(v, t).value, StepOf(v, t).child) == Null
  {
    var s := StepOf(v, t);
    if s.value.Object? {
      var ms := s.value.members;
      FirstIsUnique(ms, t.name, s.child);
    }
  }

  /** Create reports an existing value exactly when Get resolved before, and then leaves the tree as
      it was. */
  lemma {:induction false} CreateReports(v: Value, ts: seq<Token>)
    requires Consistent(ts)
    ensures CreateOf(v, ts).existed <==> GetOf(v, ts).Some?
    ensures CreateOf(v, ts).existed ==>
              CreateOf(v, ts).value == v && GetOf(v, ts) == Some(AtPath(v, CreateOf(v, ts).path))
    decreases |ts|
  {
    if ts != [] {
      StepExists(v, ts[0]);
      var s := StepOf(v, ts[0]);
      var c := Child(s.value, s.child);
      assert Consistent(ts[1..]);
      CreateReports(c, ts[1..]);
      WithChildTwice(s.value, s.child, c, c);
      assert ([s.child] + CreateOf(c, ts[1..]).path)[1..] == CreateOf(c, ts[1..]).path;
    }
  }

  /** After Set, Get finds the value, for every tree and pointer, unless the pointer appended to an
      array with "-": then it does not resolve at all. */
  lemma {:induction false} SetThenGet(v: Value, ts: seq<Token>, w: Value)
    requires Consistent(ts)
    ensures GetOf(SetOf(v, ts, w), ts) == if Appends(v, ts) then None else Some(w)
    decreases |ts|
  {
    if ts != [] {
      var s := StepOf(v, ts[0]);
      var c := Child(s.value, s.child);
      assert Consistent(ts[1..]);
      SetThenGet(c, ts[1..], w);
      SetOfStep(v, ts, w);
      StepExists(v, ts[0]);
      ChildIndexStable(s.value, s.child, SetOf(c, ts[1..], w), ts[0]);
    }
  }

  /** A resolved pointer takes the existing steps, so Set only replaces the value it names. */
  lemma SetOfResolved(v: Value, ts: seq<Token>, w: Value)
    requires Consistent(ts) && ts != [] && GetOf(v, ts).Some?
    ensures var i := ChildIndex(v, ts[0]).value;
            SetOf(v, ts, w) == WithChild(v, i, SetOf(Child(v, i), ts[1..], w))
    ensures Consistent(ts[1..])
  {
    StepExists(v, ts[0]);
    SetOfStep(v, ts, w);
  }

  /** Setting the old value again undoes a Set of a pointer that resolved. */
  lemma {:induction false} SetUndone(v: Value, ts: seq<Token>, w: Value)
    requires Consistent(ts) && GetOf(v, ts).Some?
    ensures SetOf(SetOf(v, ts, w), ts, GetOf(v, ts).value) == v
    decreases |ts|
  {
    if ts != [] {
      var i := ChildIndex(v, ts[0]).value;
      var c := Child(v, i);
      var old' := GetOf(v, ts).value;
      SetOfResolved(v, ts, w);
      SetUndone(c, ts[1..], w);
      var changed := SetOf(c, ts[1..], w);
      ChildIndexStable(v, i, changed, ts[0]);
      StepExists(SetOf(v, ts, w), ts[0]);
      SetOfStep(SetOf(v, ts, w), ts, old');
      WithChildTwice(v, i, changed, c);
    }
  }

  /** q leaves the path of p for a different child, or for none. */
  predicate Branches(v: Value, p: seq<Token>, q: seq<Token>)
    decreases |p|
  {
    && p != [] && q != [] && ChildIndex(v, p[0]).Some?
    && (ChildIndex(v, q[0]) == ChildIndex(v, p[0]) ==> Branches(Child(v, ChildIndex(v, p[0]).value), p[1..], q[1..]))
  }

  /** Setting a pointer that resolved does not affect any pointer that branches off its path. */
  lemma {:induction false} SetFrame(v: Value, p: seq<Token>, q: seq<Token>, w: Value)
    requires Consistent(p) && GetOf(v, p).Some? && Branches(v, p, q)
    ensures GetOf(SetOf(v, p, w), q) == GetOf(v, q)
    decreases |p|
  {
    var i := ChildIndex(v, p[0]).value;
    var c := Child(v, i);
    SetOfResolved(v, p, w);
    ChildIndexStable(v, i, SetOf(c, p[1..], w), q[0]);
    if ChildIndex(v, q[0]) == Some(i) {
      SetFrame(c, p[1..], q[1..], w);
    }
  }

  /** Tokens of two pointers with the same name have the same index, as those of the parser do. */
  predicate Agree(p: seq<Token>, q: seq<Token>) {
    forall i, j | 0 <= i < |p| && 0 <= j < |q| && p[i].name == q[j].name :: p[i].index == q[j].index
  }

  /** q, which resolves, leaves the way of p for a child that p does not resolve to. */
  predicate Leaves(v: Value, p: seq<Token>, q: seq<Token>)
    decreases |p|
  {
    && p != [] && q != [] && ChildIndex(v, q[0]).Some?
    && (ChildIndex(v, q[0]) == ChildIndex(v, p[0]) ==> Leaves(Child(v, ChildIndex(v, q[0]).value), p[1..], q[1..]))
  }

  /** Where it leaves, p applies a mere name to an array, which Create turns into an object. */
  predicate Replaced(v: Value, p: seq<Token>, q: seq<Token>)
    requires Leaves(v, p, q)
    decreases |p|
  {
    if ChildIndex(v, q[0]) == ChildIndex(v, p[0]) then
      Replaced(Child(v, ChildIndex(v, q[0]).value), p[1..], q[1..])
    else
      v.Array? && p[0].index == INVALID_INDEX && !IsDash(p[0])
  }

  /** One token of Create keeps the children of a container that it does not replace. */
  lemma StepKeeps(v: Value, t: Token, u: Token)
    requires (IsDash(t) ==> t.index == INVALID_INDEX) && (t.name == u.name ==> t.index == u.index)
    requires ChildIndex(v, u).Some? && ChildIndex(v, u) != ChildIndex(v, t)
    ensures var s, i := StepOf(v, t), ChildIndex(v, u).value;
            if v.Array? && t.index == INVALID_INDEX && !IsDash(t) then ChildIndex(s.value, u).None?
            else ChildIndex(s.value, u) == Some(i) && i != s.child && Child(s.value, i) == Child(v, i)
  {
    var s, i := StepOf(v, t), ChildIndex(v, u).value;
    if v.Object? {
      FirstIsUnique(s.value.members, u.name, i);
    }
  }

  /** Any Set, resolved before or not: a pointer that resolved and leaves its way keeps its value exactly
      when no array on the way was replaced by an object where it leaves. */
  lemma {:induction false} SetFrameAnywhere(v: Value, p: seq<Token>, q: seq<Token>, w: Value)
    requires Consistent(p) && Agree(p, q) && GetOf(v, q).Some? && Leaves(v, p, q)
    ensures GetOf(SetOf(v, p, w), q) == GetOf(v, q) <==> !Replaced(v, p, q)
    decreases |p|
  {
    var i := ChildIndex(v, q[0]).value;
    var s := StepOf(v, p[0]);
    var sub := SetOf(Child(s.value, s.child), p[1..], w);
    SetOfStep(v, p, w);
    ChildIndexStable(s.value, s.child, sub, q[0]);
    if ChildIndex(v, p[0]) == Some(i) {
      StepExists(v, p[0]);
      assert Consistent(p[1..]) && Agree(p[1..], q[1..]);
      SetFrameAnywhere(Child(v, i), p[1..], q[1..], w);
    } else {
      StepKeeps(v, p[0], q[0]);
    }
  }

  /** GetWithDefault: an existing value is returned untouched, a missing one is the default. */
  lemma DefaultOnlyIfMissing(v: Value, ts: seq<Token>, w: Value)
    requires Consistent(ts)
    ensures GetOf(v, ts).Some? ==> GetWithDefaultOf(v, ts, w) == v
    ensures GetOf(v, ts).None? ==>
              GetOf(GetWithDefaultOf(v, ts, w), ts) == if Appends(v, ts) then None else Some(w)
  {
    CreateReports(v, ts);
    SetThenGet(v, ts, w);
  }

  // ------------------------------------------------------------------ Erase

  /** The name as a C string: it ends at the first zero. */
  function CString(name: seq<Byte>): (r: seq<Byte>)
    ensures 0 !in name ==> r == name
    ensures 0 in name ==> |r| < |name|
  {
    if name == [] || name[0] == 0 then [] else [name[0]] + CString(name[1..])
  }

  /** Everything in front of the first zero. */
  lemma {:induction false} CStringMeans(name: seq<Byte>)
    ensures var r := CString(name); r <= name && 0 !in r && (|r| < |name| ==> name[|r|] == 0)
  {
    if name != [] && name[0] != 0 {
      CStringMeans(name[1..]);
      assert [name[0]] + name[1..] == name;
    }
  }

  function RemoveChild(v: Value, i: nat): Value
    requires i < Arity(v)
  {
    match v
    case Object(ms) => Object(ms[..i] + ms[i + 1..])
    case Array(es) => Array(es[..i] + es[i + 1..])
  }

  datatype Erased = Erased(ok: bool, value: Value)

  /** What Erase does.  The last name goes through a C string when the parent is an object. */
  function EraseOf(v: Value, ts: seq<Token>): Erased {
    if ts == [] then Erased(false, v)
    else if |ts| == 1 then
      var t := if v.Object? then ts[0].(name := CString(ts[0].name)) else ts[0];
      match ChildIndex(v, t)
      case None => Erased(false, v)
      case Some(i) => Erased(true, RemoveChild(v, i))
    else
      match ChildIndex(v, ts[0])
      case None => Erased(false, v)
      case Some(i) =>
        var sub := EraseOf(Child(v, i), ts[1..]);
        Erased(sub.ok, WithChild(v, i, sub.value))
  }

  /** The promise: erase the child that Get resolves to, and nothing else. */
  function RemoveOf(v: Value, ts: seq<Token>): Erased {
    if ts == [] || GetOf(v, ts).None? then Erased(false, v)
    else if |ts| == 1 then Erased(true, RemoveChild(v, ChildIndex(v, ts[0]).value))
    else
      var i := ChildIndex(v, ts[0]).value;
      Erased(true, WithChild(v, i, RemoveOf(Child(v, i), ts[1..]).value))
  }

  function Parent(v: Value, ts: seq<Token>): Option<Value> {
    if ts == [] then None else GetOf(v, ts[..|ts| - 1])
  }

  /** The last name contains a zero, and the object it is looked up in has a member of that name or
      of the part before the zero. */
  predicate Truncates(v: Value, ts: seq<Token>) {
    && ts != [] && Parent(v, ts).Some? && Parent(v, ts).value.Object?
    && var name := ts[|ts| - 1].name;
       var ms := Parent(v, ts).value.members;
       0 in name && (FindMember(ms, name) < |ms| || FindMember(ms, CString(name)) < |ms|)
  }

  lemma {:induction false} RemovalsDiffer(ms: seq<Member>, i: nat, j: nat)
    requires i < j < |ms| && ms[i] != ms[j]
    ensures ms[..i] + ms[i + 1..] != ms[..j] + ms[j + 1..]
  {
    var a, b := ms[..i] + ms[i + 1..], ms[..j] + ms[j + 1..];
    if a == b {
      var k := i;
      while k < j
        invariant i <= k <= j && ms[k] == ms[i]
      {
        assert a[k] == ms[k + 1] && b[k] == ms[k];
        k := k + 1;
      }
      assert false;
    }
  }

  /** Erase returns true exactly when the pointer is non-empty and resolves, and removes exactly that
      child, if and only if the last name is not truncated to another one. */
  lemma {:induction false} EraseMeetsPromise(v: Value, ts: seq<Token>)
    ensures EraseOf(v, ts) == RemoveOf(v, ts) <==> !Truncates(v, ts)
    ensures RemoveOf(v, ts).ok <==> ts != [] && GetOf(v, ts).Some?
  {
    if |ts| == 1 {
      assert ts == [ts[0]];
      EraseLast(v, ts[0]);
    } else if |ts| > 1 && ChildIndex(v, ts[0]).Some? {
      var i := ChildIndex(v, ts[0]).value;
      EraseMeetsPromise(Child(v, i), ts[1..]);
      TruncatesBelow(v, ts);
      WithChildTwice(v, i, Child(v, i), v);
      ErasedLifts(v, i, EraseOf(Child(v, i), ts[1..]), RemoveOf(Child(v, i), ts[1..]));
      NotRemoved(Child(v, i), ts[1..]);
    } else if |ts| > 1 {
      assert Parent(v, ts).None?;
    }
  }

  /** The key "a\0b" is there, but the search is for "a": nothing is erased. */
  lemma EraseMissesExample()
    ensures var name: seq<Byte> := ['a' as int, 0, 'b' as int];
            var v, t := Object([Member(name, true, Null)]), Token(name, INVALID_INDEX);
            GetOf(v, [t]) == Some(Null) && EraseOf(v, [t]) == Erased(false, v)
  {
    var name: seq<Byte> := ['a' as int, 0, 'b' as int];
    TruncatedLookup([Member(name, true, Null)], name, 0);
  }

  /** With a member "a" in front, that one is erased instead. */
  lemma EraseWrongExample()
    ensures var name: seq<Byte> := ['a' as int, 0, 'b' as int];
            var other, named := Member(['a' as int], true, Bool(true)), Member(name, true, Null);
            var v, t := Object([other, named]), Token(name, INVALID_INDEX);
            GetOf(v, [t]) == Some(Null) && EraseOf(v, [t]) == Erased(true, Object([named]))
  {
    var name: seq<Byte> := ['a' as int, 0, 'b' as int];
    var ms := [Member(['a' as int], true, Bool(true)), Member(name, true, Null)];
    TruncatedLookup(ms, name, 1);
    assert ms[..0] + ms[1..] == [ms[1]];
  }

  /** The two searches for a name that starts with "a\0". */
  lemma TruncatedLookup(ms: seq<Member>, name: seq<Byte>, k: nat)
    requires |name| == 3 && name[0] == 'a' as int && name[1] == 0
    requires k < |ms| && ms[k].name == name && forall j | 0 <= j < k :: ms[j].name != name
    ensures CString(name) == ['a' as int] && FindMember(ms, name) == k
    ensures var t := Token(name, INVALID_INDEX); GetOf(Object(ms), [t]) == Some(ms[k].value)
  {
    assert name[1..][0] == 0;
    FirstIsUnique(ms, name, k);
    assert [Token(name, INVALID_INDEX)][1..] == [];
  }

  lemma TruncatesBelow(v: Value, ts: seq<Token>)
    requires |ts| > 1 && ChildIndex(v, ts[0]).Some?
    ensures Truncates(v, ts) <==> Truncates(Child(v, ChildIndex(v, ts[0]).value), ts[1..])
  {
    assert ts[..|ts| - 1][1..] == ts[1..][..|ts| - 2];
  }

  lemma NotRemoved(v: Value, ts: seq<Token>)
    ensures !RemoveOf(v, ts).ok ==> RemoveOf(v, ts).value == v
  {
  }

  lemma ErasedLifts(v: Value, i: nat, a: Erased, b: Erased)
    requires i < Arity(v)
    ensures a == b <==> a.ok == b.ok && WithChild(v, i, a.value) == WithChild(v, i, b.value)
  {
    assert Child(WithChild(v, i, a.value), i) == a.value;
    assert Child(WithChild(v, i, b.value), i) == b.value;
  }

  lemma EraseLast(v: Value, t: Token)
    ensures EraseOf(v, [t]) == RemoveOf(v, [t]) <==> !Truncates(v, [t])
  {
    assert [t][1..] == [] && [t][..0] == [];
    assert GetOf(v, []) == Some(v);
    assert GetOf(v, [t]).Some? <==> ChildIndex(v, t).Some?;
    if v.Object? && 0 in t.name {
      var ms := v.members;
      var i, j := FindMember(ms, t.name), FindMember(ms, CString(t.name));
      if i < |ms| && j < |ms| {
        assert ms[i] != ms[j];
        if i < j {
          RemovalsDiffer(ms, i, j);
        } else {
          RemovalsDiffer(ms, j, i);
        }
      }
    }
  }

  lemma GetThroughChild(v: Value, i: nat, c: Value, ts: seq<Token>)
    requires ts != [] && ChildIndex(v, ts[0]) == Some(i)
    ensures GetOf(WithChild(v, i, c), ts) == GetOf(c, ts[1..])
  {
    ChildIndexStable(v, i, c, ts[0]);
  }

  /** After an erase that met its promise, the pointer no longer resolves if its name was the only
      one of its kind in the object, or its index the last of the array; and conversely. */
  lemma {:induction false} ErasedIsGone(v: Value, ts: seq<Token>)
    requires RemoveOf(v, ts).ok
    ensures var last := ts[|ts| - 1];
            Parent(v, ts).Some? && ChildIndex(Parent(v, ts).value, last).Some?
            && (GetOf(RemoveOf(v, ts).value, ts).None? <==> ChildIndex(RemoveChild(Parent(v, ts).value,
                 ChildIndex(Parent(v, ts).value, last).value), last).None?)
  {
    if |ts| == 1 {
      assert ts[1..] == [] && ts[..0] == [];
    } else {
      var i := ChildIndex(v, ts[0]).value;
      ErasedIsGone(Child(v, i), ts[1..]);
      ParentBelow(v, ts, i);
      GetThroughChild(v, i, RemoveOf(Child(v, i), ts[1..]).value, ts);
    }
  }

  lemma ParentBelow(v: Value, ts: seq<Token>, i: nat)
    requires |ts| > 1 && ChildIndex(v, ts[0]) == Some(i)
    ensures Parent(v, ts) == Parent(Child(v, i), ts[1..])
  {
    assert ts[..|ts| - 1][1..] == ts[1..][..|ts| - 2];
  }

  /** In an object without duplicates the removed name is gone, and every other name keeps its value; in an
      array the later elements move down by one. */
  lemma RemoveChildResolves(v: Value, t: Token, u: Token)
    requires ChildIndex(v, t).Some? && (v.Object? ==> DistinctNames(v.members))
    ensures var i, r := ChildIndex(v, t).value, RemoveChild(v, ChildIndex(v, t).value);
            && (v.Object? && u.name == t.name ==> ChildIndex(r, u).None?)
            && (v.Object? && u.name != t.name ==>
                  (ChildIndex(r, u).Some? <==> ChildIndex(v, u).Some?))
            && (v.Object? && u.name != t.name && ChildIndex(v, u).Some? ==>
                  Child(r, ChildIndex(r, u).value) == Child(v, ChildIndex(v, u).value))
            && (v.Array? && u.index != INVALID_INDEX ==> (ChildIndex(r, u).Some? <==> u.index < |v.elements| - 1))
            && (v.Array? && u.index != INVALID_INDEX && u.index < |v.elements| - 1 ==>
                  ChildIndex(r, u) == Some(u.index)
                  && Child(r, u.index) == Child(v, if u.index < i then u.index else u.index + 1))
  {
    if v.Object? {
      RemoveMember(v.members, ChildIndex(v, t).value, u.name);
    }
  }

  /** Where a name is found after one member is taken out of a list without duplicates. */
  lemma RemoveMember(ms: seq<Member>, i: nat, name: seq<Byte>)
    requires i < |ms| && DistinctNames(ms)
    ensures var ns, k := ms[..i] + ms[i + 1..], FindMember(ms, name);
            if name == ms[i].name || k == |ms| then FindMember(ns, name) == |ns|
            else FindMember(ns, name) < |ns| && ns[FindMember(ns, name)] == ms[k]
  {
    var ns, k := ms[..i] + ms[i + 1..], FindMember(ms, name);
    assert forall j | 0 <= j < |ns| :: ns[j] == ms[if j < i then j else j + 1];
    if name == ms[i].name || k == |ms| {
      FirstIsUnique(ns, name, |ns|);
    } else {
      FirstIsUnique(ns, name, if k < i then k else k - 1);
    }
  }

  /** Erasing from an object without duplicates leaves the pointer unresolved; erasing from an array
      leaves it unresolved exactly when the element was the last one. */
  lemma ErasedUnresolved(v: Value, ts: seq<Token>)
    requires RemoveOf(v, ts).ok
    ensures Parent(v, ts).Some?
    ensures match Parent(v, ts).value
            case Object(ms) => DistinctNames(ms) ==> GetOf(RemoveOf(v, ts).value, ts).None?
            case Array(es) => GetOf(RemoveOf(v, ts).value, ts).None? <==> ts[|ts| - 1].index == |es| - 1
            case _ => false
  {
    ErasedIsGone(v, ts);
    var parent, last := Parent(v, ts).value, ts[|ts| - 1];
    if parent.Object? ==> DistinctNames(parent.members) {
      RemoveChildResolves(parent, last, last);
    }
  }

  /** Erase does not affect a pointer that branches off above the erased child. */
  lemma {:induction false} EraseFrame(v: Value, p: seq<Token>, q: seq<Token>)
    requires RemoveOf(v, p).ok && Branches(v, p[..|p| - 1], q)
    ensures GetOf(RemoveOf(v, p).value, q) == GetOf(v, q)
  {
    var i := ChildIndex(v, p[0]).value;
    var c := Child(v, i);
    assert p[..|p| - 1][0] == p[0] && p[..|p| - 1][1..] == p[1..][..|p| - 2];
    ChildIndexStable(v, i, RemoveOf(c, p[1..]).value, q[0]);
    if ChildIndex(v, q[0]) == Some(i) {
      EraseFrame(c, p[1..], q[1..]);
    }
  }
}
