/** The mutable wrapper tree of index.js. Every wrapper holds a value, the own
    keys it last walked, one child wrapper per key (the accessor properties
    `accessor[key]` of the source), its path from the root and its parent. */
module WardTree {
  import opened Values

  /** What `set` does: return `false` or `true`, or raise the TypeError of a
      strict-mode write into a parent value that is not an object. */
  datatype Outcome = Returned(changed: bool) | TypeError

  /** What the accessor returns: the current value for a read, `set`'s outcome for a write. */
  datatype Access = Read(value: Value) | Wrote(outcome: Outcome)

  function Last(p: seq<Key>): Key
    requires |p| > 0
  {
    p[|p| - 1]
  }

  class Wrapper {
    var value: Value
    var keys: seq<Key>
    /** The child accessors, by key. */
    var children: map<Key, Wrapper>
    var path: seq<Key>
    var parent: Wrapper?
    /** This wrapper and its current descendants. */
    ghost var Repr: set<object>

    /** What holds of every wrapper in every state: it is not its own parent,
        only the root lacks a path, and the child accessors are the listed keys. */
    ghost predicate Sound()
      reads this
    {
      parent != this &&
      (parent != null ==> |path| > 0) &&
      (forall k :: k in children <==> k in keys)
    }

    /** Each child accessor is a wrapper whose parent is this one, whose path
        is this path followed by its key, and whose value sits at that key. */
    ghost predicate Linked()
      reads this, children.Values
    {
      (forall k :: k in children <==> k in keys) &&
      forall k :: k in children ==>
        children[k].parent == this &&
        children[k].path == path + [k] &&
        Lookup(value, k) == Some(children[k].value)
    }

    /** One level of bookkeeping: the keys are the own keys of the value, in
        enumeration order, with one linked child per key. */
    ghost predicate Bookkeeping()
      reads this, children.Values
    {
      keys == OwnKeys(value) && Linked()
    }

    /** The subtree below this wrapper is a tree of linked, valid children,
        none of which lies in a sibling's subtree; only this wrapper's own keys
        may still differ from its value's. */
    ghost predicate Tree()
      reads this, Repr
      decreases Repr, 0
    {
      this in Repr &&
      (parent != null ==> parent !in Repr) &&
      Sound() &&
      (forall k :: k in children ==>
        children[k] in Repr && children[k].Repr <= Repr && this !in children[k].Repr) &&
      (forall k, j :: k in children && j in children && k != j ==> children[k] !in children[j].Repr) &&
      Linked() &&
      (forall k :: k in children ==> children[k].Valid())
    }

    /** The whole subtree below this wrapper keeps the bookkeeping. */
    ghost predicate Valid()
      reads this, Repr
      decreases Repr, 1
    {
      Tree() && WellFormed(value) && keys == OwnKeys(value)
    }

    /** `set` on `nv` returned `o`, starting from the state `old` names. */
    twostate predicate Committed(nv: Value, o: Outcome)
      reads this, Repr, parent, if parent == null then {} else parent.children.Values
      reads if parent == null then {} else parent.Repr
    {
      parent == old(parent) && path == old(path) &&
      DeepEqual(value, nv) &&
      (o == Returned(false) <==> DeepEqual(old(value), nv)) &&
      (o == Returned(false) ==>
        value == old(value) && keys == old(keys) && children == old(children) && Repr == old(Repr) &&
        (parent != null ==> parent.value == old(parent.value))) &&
      (o != Returned(false) ==> value == nv) &&
      (parent != null && |path| > 0 && !KindMismatch(old(parent.value), Last(path)) ==>
        (o == TypeError <==> !DeepEqual(old(value), nv) && SlotWrite(old(parent.value), Last(path), nv).None?) &&
        (o == Returned(true) ==> Some(parent.value) == SlotWrite(old(parent.value), Last(path), nv))) &&
      (parent == null ==> o != TypeError) &&
      (o == TypeError ==>
        keys == old(keys) && children == old(children) && parent != null && parent.value == old(parent.value)) &&
      (o == Returned(true) ==> Valid() && fresh(Repr - {this}) && keys == OwnKeys(nv)) &&
      (parent != null ==>
        parent.Repr == if o == Returned(true) then old(parent.Repr) + Repr else old(parent.Repr)) &&
      (o == Returned(true) && parent != null && |path| > 0 &&
       old(parent.Bookkeeping() && Last(path) in parent.children && parent.children[Last(path)] == this) ==>
        parent.Bookkeeping()) &&
      (o == Returned(true) && parent != null && |path| > 0 &&
       old(parent.Valid() && Last(path) in parent.children && parent.children[Last(path)] == this) ==>
        parent.Valid())
    }

    /** `Wrapper(value, path)` run on an object whose parent `create` has set. */
    constructor (v: Value, p: seq<Key>, owner: Wrapper?)
      requires WellFormed(v)
      requires owner != null ==> |p| > 0 && Lookup(owner.value, Last(p)) == Some(v)
      modifies (if owner == null then {} else {owner})`value, (if owner == null then {} else {owner})`Repr
      ensures Valid() && fresh(Repr)
      ensures value == v && path == p && parent == owner
      ensures owner != null ==> owner.value == old(owner.value)
      ensures owner != null ==> old(owner.Repr) <= owner.Repr <= old(owner.Repr) + Repr
      decreases v, 4
    {
      keys := [];
      path := p;
      parent := owner;
      value := Undefined;
      children := map[];
      Repr := {this};
      new;
      if owner != null {
        SlotWriteSame(owner.value, Last(p), v);
      }
      var r := Accessor(v);
      if v != Undefined {
        DeepEqualReflexive(v);
      }
    }

    /** The accessor: a read when given undefined, `set` otherwise. */
    method Accessor(arg: Value) returns (r: Access)
      requires WellFormed(arg) && Sound()
      requires arg != Undefined && parent != null ==> !KindMismatch(parent.value, Last(path))
      modifies this, (if parent == null then {} else {parent})`value, (if parent == null then {} else {parent})`Repr
      ensures arg == Undefined ==> r == Read(value) && unchanged(this) && (parent != null ==> unchanged(parent))
      ensures arg != Undefined ==> r.Wrote? && Committed(arg, r.outcome)
      decreases arg, 3
    {
      if arg != Undefined {
        var o := Set(arg);
        return Wrote(o);
      }
      return Read(value);
    }

    /** `set`: give up on a deep-equal value; otherwise store it, patch the
        parent's slot, drop the old children and walk the new value. */
    method Set(newValue: Value) returns (o: Outcome)
      requires WellFormed(newValue) && Sound()
      requires parent != null ==> !KindMismatch(parent.value, Last(path))
      modifies this, (if parent == null then {} else {parent})`value, (if parent == null then {} else {parent})`Repr
      ensures Committed(newValue, o)
      decreases newValue, 2
    {
      if DeepEqual(value, newValue) {
        return Returned(false);
      }
      DeepEqualReflexive(newValue);
      value := newValue;
      if parent != null {
        var w := SlotWrite(parent.value, Last(path), newValue);
        if w.None? {
          return TypeError;
        }
        parent.value := w.value;
      }
      Clean();
      Repr := {this};
      Walk(newValue);
      // The emitter's `emit(path, newValue)` is not part of this model.
      o := Returned(true);
      if parent != null {
        parent.Repr := parent.Repr + Repr;
        assert unchanged(old(parent.Repr) - {this, parent});
        ParentCoherent(newValue);
      }
    }

    /** What a commit of `nv` through this child leaves of its parent: the
        parent's bookkeeping, and its whole validity, when they held before. */
    twostate lemma ParentCoherent(nv: Value)
      requires parent != null && parent == old(parent) && path == old(path) && |path| > 0
      requires parent != this && value == nv && WellFormed(nv)
      requires !KindMismatch(old(parent.value), Last(path))
      requires Some(parent.value) == SlotWrite(old(parent.value), Last(path), nv)
      requires parent.keys == old(parent.keys) && parent.children == old(parent.children)
      requires parent.path == old(parent.path) && parent.parent == old(parent.parent)
      requires old(parent.Bookkeeping() && Last(path) in parent.children && parent.children[Last(path)] == this) ==>
        forall k :: k in old(parent.children) && k != Last(path) ==> unchanged(old(parent.children[k]))
      requires unchanged(old(parent.Repr) - {this, parent})
      requires Valid() && fresh(Repr - {this}) && parent.Repr == old(parent.Repr) + Repr
      ensures old(parent.Bookkeeping() && Last(path) in parent.children && parent.children[Last(path)] == this) ==>
        parent.Bookkeeping()
      ensures old(parent.Valid() && Last(path) in parent.children && parent.children[Last(path)] == this) ==>
        parent.Valid()
    {
      if old(parent.Bookkeeping() && Last(path) in parent.children && parent.children[Last(path)] == this) {
        ParentKeepsBookkeeping(nv);
      }
      if old(parent.Valid() && Last(path) in parent.children && parent.children[Last(path)] == this) {
        assert old(parent.Tree() && parent.Bookkeeping());
        ParentKeepsBookkeeping(nv);
        SlotWriteWellFormed(old(parent.value), Last(path), nv);
        assert forall k :: k in old(parent.children) && k != Last(path) ==>
          this !in old(parent.children[k].Repr) && parent !in old(parent.children[k].Repr) &&
          old(parent.children[k].Repr) <= old(parent.Repr);
        ParentStaysValid();
      }
    }

    /** After this wrapper, a child of a valid `parent` at the last key of its
        path, committed a new value, the parent's whole subtree is valid again:
        the siblings' subtrees were not touched. */
    twostate lemma ParentStaysValid()
      requires parent != null && parent == old(parent) && path == old(path) && |path| > 0
      requires old(parent.Valid() && Last(path) in parent.children && parent.children[Last(path)] == this)
      requires parent.Bookkeeping() && WellFormed(parent.value)
      requires parent.children == old(parent.children) && parent.parent == old(parent.parent)
      requires parent.path == old(parent.path)
      requires Valid() && fresh(Repr - {this}) && parent.Repr == old(parent.Repr) + Repr
      requires forall k :: k in old(parent.children) && k != Last(path) ==> unchanged(old(parent.children[k].Repr))
      ensures parent.Valid()
    {
      var p := parent;
      assert old(p.Tree());
      forall k | k in p.children && k != Last(path)
        ensures p.children[k].Valid() && p.children[k].Repr == old(p.children[k].Repr)
      {
        p.children[k].Untouched();
      }
      assert p.Tree();
    }

    /** A valid wrapper none of whose subtree changed is still valid. */
    twostate lemma Untouched()
      requires old(Valid()) && unchanged(old(Repr))
      ensures Valid() && Repr == old(Repr)
    {
      assert old(Tree());
    }

    /** After this wrapper, a child of `parent` at the last key of its path,
        committed `nv`, the parent's bookkeeping still holds. */
    twostate lemma ParentKeepsBookkeeping(nv: Value)
      requires parent != null && parent == old(parent) && path == old(path) && |path| > 0
      requires parent != this && value == nv
      requires old(parent.Bookkeeping() && Last(path) in parent.children && parent.children[Last(path)] == this)
      requires !KindMismatch(old(parent.value), Last(path))
      requires Some(parent.value) == SlotWrite(old(parent.value), Last(path), nv)
      requires parent.keys == old(parent.keys) && parent.children == old(parent.children) && parent.path == old(parent.path)
      requires forall k :: k in old(parent.children) && k != Last(path) ==> unchanged(old(parent.children[k]))
      ensures parent.Bookkeeping()
    {
      var k := Last(path);
      var pv := old(parent.value);
      SlotWriteReadBack(pv, k, nv);
      OwnKeysLookup(pv, k);
      SlotWriteOwnKeys(pv, k, nv);
    }

    /** `clean`: delete the child accessor of every listed key, then empty `keys`. */
    method Clean()
      modifies this`keys, this`children
      ensures keys == []
      ensures children == old(children) - (set k | k in old(keys))
    {
      var i := 0;
      while i < |keys|
        invariant 0 <= i <= |keys| && keys == old(keys)
        invariant children == old(children) - (set j | 0 <= j < i :: keys[j])
      {
        children := children - {keys[i]};
        i := i + 1;
      }
      assert (set j | 0 <= j < |keys| :: keys[j]) == (set k | k in keys);
      keys := [];
    }

    /** `walk`, from the state `clean` leaves: one child per own key of a
        composite value, with its path extended by that key. */
    method Walk(newValue: Value)
      requires WellFormed(newValue) && value == newValue
      requires keys == [] && children == map[] && Repr == {this}
      requires parent != this && (parent != null ==> |path| > 0)
      modifies this
      ensures value == newValue && path == old(path) && parent == old(parent)
      ensures keys == OwnKeys(newValue)
      ensures Valid() && fresh(Repr - {this})
      decreases newValue, 1
    {
      if IsComposite(newValue) {
        var i := 0;
        while i < |OwnKeys(newValue)|
          invariant 0 <= i <= |OwnKeys(newValue)|
          invariant value == newValue && path == old(path) && parent == old(parent)
          invariant keys == OwnKeys(newValue)[..i]
          invariant Tree() && fresh(Repr - {this})
        {
          Each(newValue, i);
          i := i + 1;
        }
      }
    }

    /** One step of `_.each` over a composite value: pass the i-th own key and
        the value under it to the callback. */
    method Each(newValue: Value, i: nat)
      requires WellFormed(newValue) && value == newValue && i < |OwnKeys(newValue)|
      requires Tree() && keys == OwnKeys(newValue)[..i]
      modifies this
      ensures Tree() && keys == OwnKeys(newValue)[..i + 1]
      ensures value == old(value) && path == old(path) && parent == old(parent)
      ensures old(Repr) <= Repr && fresh(Repr - old(Repr))
      decreases newValue, 0
    {
      var k := OwnKeys(newValue)[i];
      var cv: Value;
      LookupOwnKey(newValue, i);
      OwnKeyFresh(newValue, i);
      match newValue {
        case Arr(s) => cv := s[i];
        case Obj(fs) => cv := fs[i].val;
      }
      LookupWellFormed(newValue, k);
      Visit(cv, k);
      assert OwnKeys(newValue)[..i + 1] == OwnKeys(newValue)[..i] + [k];
    }

    /** The callback `walk` hands to `_.each`: hang a child created from the
        value at `k` on this wrapper under `k`, then list `k`. */
    method Visit(cv: Value, k: Key)
      requires Tree() && k !in keys && WellFormed(cv) && Lookup(value, k) == Some(cv)
      modifies this
      ensures Tree() && keys == old(keys) + [k]
      ensures value == old(value) && path == old(path) && parent == old(parent)
      ensures old(Repr) <= Repr && fresh(Repr - old(Repr))
      decreases cv, 6
    {
      var c := Create(cv, path + [k]);
      children := children[k := c];
      keys := keys + [k];
      Repr := Repr + c.Repr;
    }

    /** `prototype.create` called on a wrapper: a new wrapper whose parent is this one. */
    method Create(v: Value, p: seq<Key>) returns (child: Wrapper)
      requires WellFormed(v) && |p| > 0 && Lookup(value, Last(p)) == Some(v)
      modifies this`value, this`Repr
      ensures fresh(child) && fresh(child.Repr) && child.Valid()
      ensures child.value == v && child.path == p && child.parent == this
      ensures value == old(value) && old(Repr) <= Repr <= old(Repr) + child.Repr
      decreases v, 5
    {
      child := new Wrapper(v, p, this);
    }

    /** The wrapper reached from this one through the child accessors `ks`. */
    ghost function Descend(ks: seq<Key>): Wrapper?
      requires Valid()
      reads this, Repr
      decreases |ks|
    {
      if ks == [] then this
      else if ks[0] in children then
        assert Tree();
        children[ks[0]].Descend(ks[1..])
      else null
    }
  }

  /** `ward(value)`: `prototype.create` called on the prototype, so the root has no parent. */
  method Ward(v: Value) returns (root: Wrapper)
    requires WellFormed(v)
    ensures fresh(root) && fresh(root.Repr) && root.Valid()
    ensures root.value == v && root.path == [] && root.parent == null
  {
    root := new Wrapper(v, [], null);
  }

  /** Following child accessors from a valid wrapper reads back the matching
      sub-value: there is a wrapper at `ks` exactly when the value has a part
      there, it holds that part, and its path is the starting path followed by
      `ks` (so a wrapper's path length is its depth below the root). */
  lemma {:induction false} DescendReadsBack(n: Wrapper, ks: seq<Key>)
    requires n.Valid()
    ensures n.Descend(ks) != null <==> ValueAt(n.value, ks).Some?
    ensures n.Descend(ks) != null ==>
      n.Descend(ks).Valid() &&
      n.Descend(ks).value == ValueAt(n.value, ks).value &&
      n.Descend(ks).path == n.path + ks
    decreases |ks|
  {
    if ks != [] {
      var k := ks[0];
      assert n.Tree();
      OwnKeysLookup(n.value, k);
      if k in n.children {
        var c := n.children[k];
        DescendReadsBack(c, ks[1..]);
        assert n.path + ks == n.path + [k] + ks[1..];
      }
    }
  }

  /** Every wrapper below a valid one has as parent the wrapper one key up,
      the one whose `create` made it. */
  lemma {:induction false} DescendParent(n: Wrapper, ks: seq<Key>)
    requires n.Valid() && |ks| > 0 && n.Descend(ks) != null
    ensures n.Descend(ks[..|ks| - 1]) != null
    ensures n.Descend(ks).parent == n.Descend(ks[..|ks| - 1])
    decreases |ks|
  {
    assert n.Tree();
    var c := n.children[ks[0]];
    if |ks| > 1 {
      DescendParent(c, ks[1..]);
      assert ks[1..][..|ks| - 2] == ks[..|ks| - 1][1..];
    }
  }

  /** `ward(2)` reads back 2. */
  method ReadPrimitive() returns (r: Value)
    ensures r == Num(2)
  {
    var data := Ward(Num(2));
    var a := data.Accessor(Undefined);
    r := a.value;
  }

  function NestedSample(): Value {
    Obj([Field("prop", Num(2)), Field("vector", Arr([Num(1), Num(2), Num(3)]))])
  }

  /** `ward({prop: 2, vector: [1, 2, 3]})`: the root, its children and a
      grandchild hold the matching parts, which their accessors read back. */
  method ReadNested() returns (whole: Value, prop: Value, vector: Value, second: Value)
    ensures whole == NestedSample()
    ensures prop == Num(2) && vector == Arr([Num(1), Num(2), Num(3)]) && second == Num(2)
  {
    var vs := Arr([Num(1), Num(2), Num(3)]);
    var data := Ward(NestedSample());
    assert data.Tree();
    assert Lookup(NestedSample(), Name("prop")) == Some(Num(2));
    assert Lookup(NestedSample(), Name("vector")) == Some(vs);
    OwnKeysLookup(NestedSample(), Name("prop"));
    OwnKeysLookup(NestedSample(), Name("vector"));
    var p := data.children[Name("prop")];
    var vec := data.children[Name("vector")];
    assert vec.Tree() && vec.value == vs;
    assert Lookup(vs, Index(1)) == Some(Num(2));
    OwnKeysLookup(vs, Index(1));
    var one := vec.children[Index(1)];
    whole, prop, vector, second := data.value, p.value, vec.value, one.value;
  }

  /** `ward({nested: 'a'})`, then `data.nested('b')`: the write succeeds and
      patches the root's slot, so the root then reads `{nested: 'b'}`. */
  method WriteNestedPrimitive() returns (o: Outcome, nested: Value, whole: Value, root: Wrapper)
    ensures o == Returned(true) && nested == Str("b")
    ensures whole == Obj([Field("nested", Str("b"))])
    ensures root.Valid() && root.value == whole
  {
    var data := Ward(Obj([Field("nested", Str("a"))]));
    assert data.Tree();
    assert Lookup(data.value, Name("nested")) == Some(Str("a"));
    OwnKeysLookup(data.value, Name("nested"));
    var child := data.children[Name("nested")];
    assert child.Tree() && child.parent == data && Last(child.path) == Name("nested");
    var fs := [Field("nested", Str("a"))];
    assert fs[1..] == [];
    assert PutField(fs, "nested", Str("b")) == [Field("nested", Str("b"))];
    o := child.Set(Str("b"));
    nested, whole, root := child.value, data.value, data;
  }

  /** `ward({x: 1, y: [2]})`, then `data.x(9)`: the root holds the patched
      value and its whole tree, the untouched sibling `y` included, is valid
      again. */
  method WriteLeavesSibling() returns (o: Outcome, root: Wrapper)
    ensures o == Returned(true) && root.Valid()
    ensures root.value == Obj([Field("x", Num(9)), Field("y", Arr([Num(2)]))])
  {
    root := Ward(Obj([Field("x", Num(1)), Field("y", Arr([Num(2)]))]));
    assert root.Tree();
    assert Lookup(root.value, Name("x")) == Some(Num(1));
    OwnKeysLookup(root.value, Name("x"));
    var x := root.children[Name("x")];
    o := WriteX(root, x);
  }

  /** The root slot patch that `WriteX` performs. */
  lemma PatchX()
    ensures SlotWrite(Obj([Field("x", Num(1)), Field("y", Arr([Num(2)]))]), Name("x"), Num(9)) ==
            Some(Obj([Field("x", Num(9)), Field("y", Arr([Num(2)]))]))
  {
    var fs := [Field("x", Num(1)), Field("y", Arr([Num(2)]))];
    assert fs[0].name == "x";
    assert PutField(fs, "x", Num(9)) == [Field("x", Num(9))] + fs[1..];
    assert [Field("x", Num(9))] + fs[1..] == [Field("x", Num(9)), Field("y", Arr([Num(2)]))];
  }

  /** The write half of `WriteLeavesSibling`, through the wrapper at key `x`
      of a valid root. */
  method WriteX(root: Wrapper, x: Wrapper) returns (o: Outcome)
    requires root.Valid() && Name("x") in root.children && root.children[Name("x")] == x
    requires root.path == [] && x.value == Num(1)
    requires root.value == Obj([Field("x", Num(1)), Field("y", Arr([Num(2)]))])
    modifies x, root`value, root`Repr
    ensures o == Returned(true) && root.Valid()
    ensures root.value == Obj([Field("x", Num(9)), Field("y", Arr([Num(2)]))])
  {
    assert root.Tree();
    assert x.Tree() && x.parent == root && x.path == [Name("x")];
    PatchX();
    o := x.Set(Num(9));
    assert o != Returned(false) && o != TypeError;
  }

  /** `ward({nested: {a: 1}})`, then `data.nested({b: 3})`: the old child
      accessor `a` is gone and `b` reads 3. */
  method RemovesOldWrappers() returns (o: Outcome, hasA: bool, b: Value)
    ensures o == Returned(true) && !hasA && b == Num(3)
  {
    var inner := Obj([Field("a", Num(1))]);
    var data := Ward(Obj([Field("nested", inner)]));
    assert data.Tree();
    assert Lookup(data.value, Name("nested")) == Some(inner);
    OwnKeysLookup(data.value, Name("nested"));
    var nested := data.children[Name("nested")];
    assert nested.Tree();
    o, hasA, b := ReplaceNested(nested);
  }

  /** The second half of `RemovesOldWrappers`: `nested({b: 3})` on a wrapper at
      path `["nested"]` holding `{a: 1}` under a root holding `{nested: {a: 1}}`. */
  method ReplaceNested(nested: Wrapper) returns (o: Outcome, hasA: bool, b: Value)
    requires nested.Sound() && nested.parent != null && nested.path == [Name("nested")]
    requires nested.value == Obj([Field("a", Num(1))])
    requires nested.parent.value == Obj([Field("nested", Obj([Field("a", Num(1))]))])
    modifies nested, nested.parent`value, nested.parent`Repr
    ensures o == Returned(true) && !hasA && b == Num(3)
  {
    var nv := Obj([Field("b", Num(3))]);
    var fs := [Field("nested", nested.value)];
    assert fs[1..] == [];
    assert PutField(fs, "nested", nv) == [Field("nested", nv)];
    assert nv.fields[1..] == [] && FieldValue(nv.fields, "a").None?;
    assert nested.value.fields[0].name == "a";
    assert !DeepEqual(nested.value, nv);
    o := nested.Set(nv);
    assert nested.Tree();
    assert Lookup(nv, Name("b")) == Some(Num(3)) && Lookup(nv, Name("a")).None?;
    OwnKeysLookup(nv, Name("a"));
    OwnKeysLookup(nv, Name("b"));
    hasA := Name("a") in nested.children;
    b := nested.children[Name("b")].value;
  }

  /** `ward({a: {b: 0}})`, then `data.a({b: 0})`: a deep-equal write returns
      false and leaves both wrappers as they were. */
  method EquivalentWrite() returns (o: Outcome, a: Value, whole: Value)
    ensures o == Returned(false)
    ensures a == Obj([Field("b", Num(0))]) && whole == Obj([Field("a", Obj([Field("b", Num(0))]))])
  {
    var inner := Obj([Field("b", Num(0))]);
    var data := Ward(Obj([Field("a", inner)]));
    assert data.Tree();
    assert Lookup(data.value, Name("a")) == Some(inner);
    OwnKeysLookup(data.value, Name("a"));
    var child := data.children[Name("a")];
    assert child.Tree();
    DeepEqualReflexive(inner);
    o := child.Set(Obj([Field("b", Num(0))]));
    a, whole := child.value, data.value;
  }
}
