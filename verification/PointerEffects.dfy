/** What the pointer operations do to a tree, child by child: the whole new tree in terms of the old one. */
module PointerEffects {
  import opened Encodings
  import opened PointerSyntax
  import opened Dom
  import opened PointerResolve

  // ------------------------------------------------------------------ Get

  /** The first member with the name. */
  ghost predicate FirstNamed(ms: seq<Member>, name: seq<Byte>, k: nat) {
    k < |ms| && ms[k].name == name && forall j | 0 <= j < k :: ms[j].name != name
  }

  /** The child that a token names: the first member of its name, or the element of its index. */
  ghost predicate Names(v: Value, t: Token, k: nat) {
    match v
    case Object(ms) => FirstNamed(ms, t.name, k)
    case Array(es) => t.index != 0xFFFF_FFFF && k == t.index < |es|
    case _ => false
  }

  lemma ChildIsNamed(v: Value, t: Token, k: nat)
    ensures ChildIndex(v, t) == Some(k) <==> Names(v, t, k)
  {
    if v.Object? {
      var ms := v.members;
      if FirstNamed(ms, t.name, k) {
        FirstIsUnique(ms, t.name, k);
      }
    }
  }

  function Children(v: Value): seq<Value> {
    match v
    case Object(ms) => seq(|ms|, k requires 0 <= k < |ms| => ms[k].value)
    case Array(es) => es
    case _ => []
  }

  /** Get, one token at a time: an empty pointer is the value itself, and a token leads to the child that it
      names, if it names one. */
  lemma GetMeans(v: Value, ts: seq<Token>)
    ensures ts == [] ==> GetOf(v, ts) == Some(v)
    ensures forall k: nat | ts != [] && Names(v, ts[0], k) ::
              k < |Children(v)| && GetOf(v, ts) == GetOf(Children(v)[k], ts[1..])
    ensures ts != [] && (forall k: nat :: !Names(v, ts[0], k)) ==> GetOf(v, ts) == None
  {
    if ts != [] {
      var i := ChildIndex(v, ts[0]);
      forall k: nat
        ensures i == Some(k) <==> Names(v, ts[0], k)
      {
        ChildIsNamed(v, ts[0], k);
      }
    }
  }

  // ------------------------------------------------------------------ Set

  function OldMembers(v: Value): seq<Member> {
    if v.Object? then v.members else []
  }

  function OldElements(v: Value): seq<Value> {
    if v.Array? then v.elements else []
  }

  predicate Appended(v: Value, t: Token) {
    v.Array? && t.name == ['-' as int]
  }

  /** A token that is applied to an object, or makes one. */
  predicate ToObject(v: Value, t: Token) {
    !Appended(v, t) && (v.Object? || t.index == 0xFFFF_FFFF)
  }

  /** The element that a token is about, where it is not about a member. */
  function ElementOf(v: Value, t: Token): nat {
    if Appended(v, t) then |OldElements(v)| else t.index
  }

  /** The child that is written below: the old one, or a new Null. */
  function OldChild(v: Value, t: Token): Value {
    if ToObject(v, t) then
      var ms, k := OldMembers(v), FindMember(OldMembers(v), t.name);
      if k < |ms| then ms[k].value else Null
    else
      var es, i := OldElements(v), ElementOf(v, t);
      if i < |es| then es[i] else Null
  }

  /** r is v with the value w at the end of p.  An object keeps its members in place and gains at most one, at
      its end, of the missing name.  An array keeps its elements and is made just long enough, with Nulls in
      front of the new element.  Anything else gives way to an empty object or array first. */
  ghost predicate Assigned(v: Value, p: seq<Token>, w: Value, r: Value)
    decreases |p|
  {
    if p == [] then r == w
    else if ToObject(v, p[0]) then
      var ms, k := OldMembers(v), FindMember(OldMembers(v), p[0].name);
      && r.Object? && |r.members| == (if k < |ms| then |ms| else |ms| + 1)
      && (forall j | 0 <= j < |ms| && j != k :: r.members[j] == ms[j])
      && r.members[k].name == p[0].name && r.members[k].nameCopied == (if k < |ms| then ms[k].nameCopied else true)
      && Assigned(OldChild(v, p[0]), p[1..], w, r.members[k].value)
    else
      var es, i := OldElements(v), ElementOf(v, p[0]);
      && r.Array? && |r.elements| == (if i < |es| then |es| else i + 1)
      && (forall j | 0 <= j < |es| && j != i :: r.elements[j] == es[j])
      && (forall j | |es| <= j < i :: r.elements[j] == Null)
      && Assigned(OldChild(v, p[0]), p[1..], w, r.elements[i])
  }

  /** The whole tree after Set, for every tree and pointer. */
  lemma {:induction false} SetAssigns(v: Value, p: seq<Token>, w: Value)
    ensures Assigned(v, p, w, SetOf(v, p, w))
    decreases |p|
  {
    if p != [] {
      StepIsLiteral(v, p[0]);
      SetAssigns(OldChild(v, p[0]), p[1..], w);
      SetOfStep(v, p, w);
    }
  }

  lemma StepIsLiteral(v: Value, t: Token)
    ensures var s := StepOf(v, t);
            && Child(s.value, s.child) == OldChild(v, t)
            && (ToObject(v, t) ==> s.value.Object? && s.child == FindMember(OldMembers(v), t.name))
            && (!ToObject(v, t) ==> s.value.Array? && s.child == ElementOf(v, t))
  {
  }

  /** Only one tree is v with w at the end of p. */
  lemma {:induction false} AssignedOnce(v: Value, p: seq<Token>, w: Value, r: Value, r': Value)
    requires Assigned(v, p, w, r) && Assigned(v, p, w, r')
    ensures r == r'
    decreases |p|
  {
    if p != [] {
      if ToObject(v, p[0]) {
        var k := FindMember(OldMembers(v), p[0].name);
        AssignedOnce(OldChild(v, p[0]), p[1..], w, r.members[k].value, r'.members[k].value);
        assert r.members[k] == r'.members[k];
        assert r.members == r'.members;
      } else {
        AssignedOnce(OldChild(v, p[0]), p[1..], w, r.elements[ElementOf(v, p[0])], r'.elements[ElementOf(v, p[0])]);
        assert r.elements == r'.elements;
      }
    }
  }

  /** Create leaves a Null where nothing was. */
  lemma CreateAssigns(v: Value, p: seq<Token>)
    ensures !CreateOf(v, p).existed ==> Assigned(v, p, Null, CreateOf(v, p).value)
  {
    if !CreateOf(v, p).existed {
      CreatedNull(v, p);
      PutBack(CreateOf(v, p).value, CreateOf(v, p).path);
      SetAssigns(v, p, Null);
    }
  }

  /** GetWithDefault leaves the tree alone or assigns the default. */
  lemma DefaultAssigns(v: Value, p: seq<Token>, w: Value)
    ensures if CreateOf(v, p).existed then GetWithDefaultOf(v, p, w) == CreateOf(v, p).value
            else Assigned(v, p, w, GetWithDefaultOf(v, p, w))
  {
    SetAssigns(v, p, w);
  }

  lemma {:induction false} CreatedNull(v: Value, p: seq<Token>)
    requires !CreateOf(v, p).existed
    ensures AtPath(CreateOf(v, p).value, CreateOf(v, p).path) == Null
    decreases |p|
  {
    var s := StepOf(v, p[0]);
    var c := Child(s.value, s.child);
    var sub := CreateOf(c, p[1..]);
    assert ([s.child] + sub.path)[1..] == sub.path;
    if !sub.existed {
      CreatedNull(c, p[1..]);
    } else {
      NullExists(p[1..]);
    }
  }

  lemma NullExists(p: seq<Token>)
    ensures CreateOf(Null, p).existed <==> p == []
  {
  }

  /** q goes the way of p in the new tree r, as far as both reach. */
  ghost predicate Follows(v: Value, p: seq<Token>, q: seq<Token>, r: Value)
    decreases |p|
  {
    p == [] || q == [] ||
    if ToObject(v, p[0]) then
      var k := FindMember(OldMembers(v), p[0].name);
      r.Object? && k < |r.members| && Names(r, q[0], k) && Follows(OldChild(v, p[0]), p[1..], q[1..], r.members[k].value)
    else
      var i := ElementOf(v, p[0]);
      r.Array? && i < |r.elements| && Names(r, q[0], i) && Follows(OldChild(v, p[0]), p[1..], q[1..], r.elements[i])
  }

  /** Nothing else comes into being: a pointer that did not resolve before a Set of p and does so afterwards
      goes the way of p, or names one of the Nulls in front of a new element on it. */
  lemma {:induction false} NewlyResolved(v: Value, p: seq<Token>, q: seq<Token>, w: Value, r: Value)
    requires Assigned(v, p, w, r) && GetOf(v, q).None? && GetOf(r, q).Some?
    ensures Follows(v, p, q, r) || GetOf(r, q) == Some(Null)
    decreases |p|
  {
    if p != [] && q != [] {
      var k := ChildIndex(r, q[0]).value;
      ChildIsNamed(r, q[0], k);
      var new' := if ToObject(v, p[0]) then FindMember(OldMembers(v), p[0].name) else ElementOf(v, p[0]);
      if ToObject(v, p[0]) {
        MemberBefore(v, p, q, w, r, k);
      } else {
        ElementBefore(v, p, q, w, r, k);
      }
      if k == new' && |q| > 1 {
        NewlyResolved(OldChild(v, p[0]), p[1..], q[1..], w, Child(r, k));
      }
    }
  }

  /** What q resolves to at an object, before and after. */
  lemma {:induction false} MemberBefore(v: Value, p: seq<Token>, q: seq<Token>, w: Value, r: Value, k: nat)
    requires p != [] && q != [] && ToObject(v, p[0]) && Assigned(v, p, w, r) && ChildIndex(r, q[0]) == Some(k)
    ensures k == FindMember(OldMembers(v), p[0].name) && GetOf(v, q).None? && |q| > 1 ==>
              GetOf(OldChild(v, p[0]), q[1..]).None?
    ensures k != FindMember(OldMembers(v), p[0].name) ==> GetOf(v, q) == GetOf(r, q)
  {
    var ms := OldMembers(v);
    assert forall j | 0 <= j < |ms| :: r.members[j].name == ms[j].name;
    if k < |ms| {
      FirstIsUnique(ms, q[0].name, k);
    }
  }

  lemma {:induction false} ElementBefore(v: Value, p: seq<Token>, q: seq<Token>, w: Value, r: Value, k: nat)
    requires p != [] && q != [] && !ToObject(v, p[0]) && Assigned(v, p, w, r) && ChildIndex(r, q[0]) == Some(k)
    ensures k == ElementOf(v, p[0]) && GetOf(v, q).None? && |q| > 1 ==> GetOf(OldChild(v, p[0]), q[1..]).None?
    ensures k != ElementOf(v, p[0]) && GetOf(r, q).Some? ==> GetOf(v, q) == GetOf(r, q) || GetOf(r, q) == Some(Null)
  {
  }

  // ------------------------------------------------------------------ Erase

  /** One child fewer, and the others in their order. */
  ghost predicate RemovedAt(v: Value, k: nat, r: Value) {
    match v
    case Object(ms) =>
      && k < |ms| && r.Object? && |r.members| == |ms| - 1
      && (forall j | 0 <= j < k :: r.members[j] == ms[j])
      && (forall j | k < j < |ms| :: r.members[j - 1] == ms[j])
    case Array(es) =>
      && k < |es| && r.Array? && |r.elements| == |es| - 1
      && (forall j | 0 <= j < k :: r.elements[j] == es[j])
      && (forall j | k < j < |es| :: r.elements[j - 1] == es[j])
    case _ => false
  }

  /** Everything but child k is as it was. */
  ghost predicate OnlyChild(v: Value, k: nat, r: Value) {
    match v
    case Object(ms) =>
      && k < |ms| && r.Object? && |r.members| == |ms| && r.members[k] == ms[k].(value := r.members[k].value)
      && (forall j | 0 <= j < |ms| && j != k :: r.members[j] == ms[j])
    case Array(es) =>
      && k < |es| && r.Array? && |r.elements| == |es| && (forall j | 0 <= j < |es| && j != k :: r.elements[j] == es[j])
    case _ => false
  }

  /** The last token, looked up in an object as a C string. */
  ghost predicate NamesLast(v: Value, t: Token, k: nat) {
    Names(v, if v.Object? then t.(name := CString(t.name)) else t, k)
  }

  /** r is v without the child at the end of p; the other children of its parent keep their order. */
  ghost predicate Without(v: Value, p: seq<Token>, r: Value)
    decreases |p|
  {
    p != [] &&
    if |p| == 1 then exists k: nat :: NamesLast(v, p[0], k) && RemovedAt(v, k, r)
    else exists k: nat :: Names(v, p[0], k) && OnlyChild(v, k, r) && Without(Children(v)[k], p[1..], Children(r)[k])
  }

  /** The whole tree after Erase. */
  lemma {:induction false} EraseRemoves(v: Value, p: seq<Token>)
    ensures EraseOf(v, p).ok ==> Without(v, p, EraseOf(v, p).value)
    ensures !EraseOf(v, p).ok ==> EraseOf(v, p).value == v && forall r :: !Without(v, p, r)
    decreases |p|
  {
    if |p| == 1 {
      EraseLastRemoves(v, p);
    } else if |p| > 1 {
      var i := ChildIndex(v, p[0]);
      forall k: nat
        ensures i == Some(k) <==> Names(v, p[0], k)
      {
        ChildIsNamed(v, p[0], k);
      }
      if i.Some? {
        var c := Child(v, i.value);
        EraseRemoves(c, p[1..]);
        WithChildTwice(v, i.value, c, c);
        EraseBelowRemoves(v, p, i.value, EraseOf(v, p).value);
      }
    }
  }

  lemma EraseLastRemoves(v: Value, p: seq<Token>)
    requires |p| == 1
    ensures EraseOf(v, p).ok ==> Without(v, p, EraseOf(v, p).value)
    ensures !EraseOf(v, p).ok ==> EraseOf(v, p).value == v && forall r :: !Without(v, p, r)
  {
    var t := if v.Object? then p[0].(name := CString(p[0].name)) else p[0];
    var i := ChildIndex(v, t);
    forall k: nat
      ensures i == Some(k) <==> NamesLast(v, p[0], k)
    {
      ChildIsNamed(v, t, k);
    }
    if i.Some? {
      assert NamesLast(v, p[0], i.value) && RemovedAt(v, i.value, EraseOf(v, p).value);
    }
  }

  lemma EraseBelowRemoves(v: Value, p: seq<Token>, k: nat, r: Value)
    requires |p| > 1 && Names(v, p[0], k) && k < Arity(v) && r == WithChild(v, k, EraseOf(Child(v, k), p[1..]).value)
    requires EraseOf(Child(v, k), p[1..]).ok ==> Without(Child(v, k), p[1..], EraseOf(Child(v, k), p[1..]).value)
    requires !EraseOf(Child(v, k), p[1..]).ok ==> forall x :: !Without(Child(v, k), p[1..], x)
    ensures EraseOf(Child(v, k), p[1..]).ok ==> Without(v, p, r)
    ensures !EraseOf(Child(v, k), p[1..]).ok ==> forall x :: !Without(v, p, x)
  {
    assert Children(v)[k] == Child(v, k) && Children(r)[k] == EraseOf(Child(v, k), p[1..]).value;
    assert OnlyChild(v, k, r);
    forall x | Without(v, p, x)
      ensures Without(Child(v, k), p[1..], Children(x)[k])
    {
    }
  }
}
