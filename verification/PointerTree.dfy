/** The pointer operations on a tree that changes in place.  The walking pointer of the original is
    the position of the current value; writing through it is a write at that position. */
module PointerTree {
  import opened Encodings
  import opened PointerSyntax
  import opened Dom
  import opened PointerResolve

  class Tree {
    var root: Value

    constructor (root: Value)
      ensures this.root == root
    {
      this.root := root;
    }

    /** Finds the value, or the index of the first token that does not resolve. */
    method Get(ts: seq<Token>) returns (found: Option<Value>, unresolved: nat)
      ensures found == GetOf(root, ts)
      ensures found.None? ==> unresolved < |ts| && GetOf(root, ts[..unresolved]).Some?
                              && GetOf(root, ts[..unresolved + 1]).None?
    {
      var v, t := root, 0;
      assert ts[0..] == ts;
      while t != |ts|
        invariant t <= |ts| && GetOf(root, ts[..t]) == Some(v) && GetOf(root, ts) == GetOf(v, ts[t..])
        decreases |ts| - t
      {
        assert ts[..t + 1] == ts[..t] + [ts[t]] && ts[t..][1..] == ts[t + 1..];
        GetAppend(root, ts[..t], [ts[t]]);
        GetAppend(root, ts[..t], ts[t..]);
        assert [ts[t]][1..] == [];
        var i := ChildOf(v, ts[t]);
        if i.None? {
          return None, t;
        }
        v := Child(v, i.value);
        t := t + 1;
      }
      return Some(v), 0;
    }

    /** Creates the value if it is missing; tells where it is and whether it was there. */
    method Create(ts: seq<Token>) returns (v: seq<nat>, alreadyExist: bool)
      modifies this
      ensures Created(root, v, alreadyExist) == CreateOf(old(root), ts)
    {
      v, alreadyExist := [], true;
      var t := 0;
      ghost var goal := CreateOf(root, ts);
      assert ts[0..] == ts;
      assert [] + goal.path == goal.path;
      while t != |ts|
        invariant t <= |ts| && ValidPath(root, v)
        invariant var sub := CreateOf(AtPath(root, v), ts[t..]);
                  goal == Created(PutAt(root, v, sub.value), v + sub.path, alreadyExist && sub.existed)
        decreases |ts| - t
      {
        var s := StepInPlace(AtPath(root, v), ts[t]);
        StepAt(root, v, ts[t..]);
        assert ts[t..][1..] == ts[t + 1..];
        root := PutAt(root, v, s.value);
        v := v + [s.child];
        alreadyExist := alreadyExist && s.existed;
        t := t + 1;
      }
      assert ts[t..] == [];
      PutBack(root, v);
      assert v + [] == v;
    }

    /** Creates the value and assigns to it. */
    method Set(ts: seq<Token>, w: Value)
      modifies this
      ensures root == SetOf(old(root), ts, w)
    {
      var v, exist := Create(ts);
      root := PutAt(root, v, w);
    }

    /** Creates the value and assigns the default if it was missing. */
    method GetWithDefault(ts: seq<Token>, w: Value) returns (v: Value)
      modifies this
      ensures root == GetWithDefaultOf(old(root), ts, w)
      ensures var r := CreateOf(old(root), ts); v == if r.existed then AtPath(r.value, r.path) else w
    {
      var p, exist := Create(ts);
      if !exist {
        WrittenThere(root, p, w);
        root := PutAt(root, p, w);
      }
      v := AtPath(root, p);
    }

    /** Walks to the parent and removes the child there. */
    method Erase(ts: seq<Token>) returns (ok: bool)
      modifies this
      ensures Erased(ok, root) == EraseOf(old(root), ts)
    {
      if |ts| == 0 {
        return false;
      }
      ghost var goal := EraseOf(root, ts);
      var v, t := [], 0;
      assert ts[0..] == ts;
      while t != |ts| - 1
        invariant t < |ts| && root == old(root) && ValidPath(root, v)
        invariant goal == ErasedBelow(root, v, ts[t..])
        decreases |ts| - t
      {
        var cur := AtPath(root, v);
        EraseBelowStep(root, v, ts[t..]);
        assert ts[t..][1..] == ts[t + 1..];
        var i := ChildOf(cur, ts[t]);
        if i.None? {
          return false;
        }
        v := v + [i.value];
        t := t + 1;
      }
      assert ts[t..] == [ts[t]];
      ok := EraseLastName(v, ts[t]);
    }

    /** The last name, at its parent. */
    method EraseLastName(v: seq<nat>, last: Token) returns (ok: bool)
      requires ValidPath(root, v)
      modifies this
      ensures Erased(ok, root) == ErasedBelow(old(root), v, [last])
    {
      var parent := AtPath(root, v);
      PutBack(root, v);
      if parent.Object? {
        var name := CStringLoop(last.name);
        var m := FindMemberLoop(parent.members, name);
        if m == |parent.members| {
          return false;
        }
        root := PutAt(root, v, Object(parent.members[..m] + parent.members[m + 1..]));
        return true;
      } else if parent.Array? {
        if last.index == INVALID_INDEX || last.index >= |parent.elements| {
          return false;
        }
        root := PutAt(root, v, Array(parent.elements[..last.index] + parent.elements[last.index + 1..]));
        return true;
      }
      return false;
    }
  }

  /** Erasing below a position, as seen from the root. */
  ghost function ErasedBelow(root: Value, v: seq<nat>, ts: seq<Token>): Erased
    requires ValidPath(root, v)
  {
    var sub := EraseOf(AtPath(root, v), ts);
    Erased(sub.ok, PutAt(root, v, sub.value))
  }

  lemma EraseBelowStep(root: Value, v: seq<nat>, ts: seq<Token>)
    requires ValidPath(root, v) && |ts| > 1
    ensures var i := ChildIndex(AtPath(root, v), ts[0]);
            if i.None? then ErasedBelow(root, v, ts) == Erased(false, root)
            else ValidPath(root, v + [i.value]) && ErasedBelow(root, v, ts) == ErasedBelow(root, v + [i.value], ts[1..])
  {
    var cur := AtPath(root, v);
    var i := ChildIndex(cur, ts[0]);
    PutBack(root, v);
    if i.Some? {
      PathExtends(root, v, i.value);
      PutBelow(root, v, cur, i.value, EraseOf(Child(cur, i.value), ts[1..]).value);
    }
  }

  /** The switch on the type of the current value that Get and Erase share. */
  method ChildOf(v: Value, t: Token) returns (i: Option<nat>)
    ensures i == ChildIndex(v, t)
  {
    if v.Object? {
      var m := FindMemberLoop(v.members, t.name);
      return if m == |v.members| then None else Some(m);
    } else if v.Array? {
      return if t.index == INVALID_INDEX || t.index >= |v.elements| then None else Some(t.index);
    }
    return None;
  }

  /** One token of Create, with its type changes and its PushBack loop. */
  method StepInPlace(v0: Value, t: Token) returns (s: Step)
    ensures s == StepOf(v0, t)
  {
    var v := v0;
    if v.Array? && At(t.name, 0) == MINUS && |t.name| == 1 {
      return Step(Array(v.elements + [Null]), |v.elements|, false);
    }
    if t.index == INVALID_INDEX {
      if !v.Object? {
        v := Object([]);
      }
    } else if !v.Array? && !v.Object? {
      v := Array([]);
    }
    if v.Array? {
      var es, exist := v.elements, true;
      if t.index >= |es| {
        while t.index >= |es|
          invariant |v.elements| <= |es| <= t.index + 1 && es == v.elements + Nulls(|es| - |v.elements|)
          decreases t.index + 1 - |es|
        {
          es := es + [Null];
        }
        exist := false;
      }
      return Step(Array(es), t.index, exist);
    }
    var m := FindMemberLoop(v.members, t.name);
    if m == |v.members| {
      return Step(Object(v.members + [Member(t.name, true, Null)]), m, false);
    }
    return Step(v, m, true);
  }

  method CStringLoop(name: seq<Byte>) returns (r: seq<Byte>)
    ensures r == CString(name)
  {
    var n := 0;
    assert name[0..] == name;
    while n < |name| && name[n] != 0
      invariant n <= |name| && CString(name) == name[..n] + CString(name[n..])
    {
      assert name[n..][1..] == name[n + 1..];
      assert name[..n + 1] == name[..n] + [name[n]];
      ConcatAssoc(name[..n], [name[n]], CString(name[n + 1..]));
      n := n + 1;
    }
    r := name[..n];
  }

  /** One token of Create at a position. */
  lemma StepAt(root: Value, v: seq<nat>, ts: seq<Token>)
    requires ValidPath(root, v) && ts != []
    ensures var s := StepOf(AtPath(root, v), ts[0]);
            var root', v' := PutAt(root, v, s.value), v + [s.child];
            var sub, sub' := CreateOf(AtPath(root, v), ts), CreateOf(Child(s.value, s.child), ts[1..]);
            && ValidPath(root', v') && AtPath(root', v') == Child(s.value, s.child)
            && PutAt(root', v', sub'.value) == PutAt(root, v, sub.value)
            && v' + sub'.path == v + sub.path
            && sub.existed == (s.existed && sub'.existed)
  {
    var s := StepOf(AtPath(root, v), ts[0]);
    var sub' := CreateOf(Child(s.value, s.child), ts[1..]);
    PutBelow(root, v, s.value, s.child, sub'.value);
    PathExtends(PutAt(root, v, s.value), v, s.child);
    ConcatAssoc(v, [s.child], sub'.path);
  }

  lemma {:induction false} WrittenThere(v: Value, path: seq<nat>, w: Value)
    requires ValidPath(v, path)
    ensures ValidPath(PutAt(v, path, w), path) && AtPath(PutAt(v, path, w), path) == w
  {
    if path != [] {
      WrittenThere(Child(v, path[0]), path[1..], w);
    }
  }
}
