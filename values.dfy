/** JavaScript values as the ward wrapper sees them, and the few operations on
    them that index.js relies on: lodash's deep equality, own-key enumeration,
    property lookup and the strict-mode property write `container[key] = x`. */
module Values {

  datatype Option<T> = None | Some(value: T)

  /** A JSON-like JavaScript value. A plain object lists its own properties in
      enumeration order. Numbers are integers here. */
  datatype Value =
    | Undefined
    | Null
    | Bool(b: bool)
    | Num(n: int)
    | Str(s: string)
    | Arr(elems: seq<Value>)
    | Obj(fields: seq<Field>)

  datatype Field = Field(name: string, val: Value)

  /** An own key: a numeric index of an array or a property name of a plain object. */
  datatype Key = Index(i: nat) | Name(name: string)

  /** `_.isArray(v) || _.isPlainObject(v)`: the values `walk` descends into. */
  predicate IsComposite(v: Value) {
    v.Arr? || v.Obj?
  }

  predicate DistinctNames(fs: seq<Field>) {
    forall i, j :: 0 <= i < j < |fs| ==> fs[i].name != fs[j].name
  }

  /** Every JavaScript object has distinct own property names, at every depth. */
  predicate WellFormed(v: Value) {
    match v
    case Arr(s) => forall i :: 0 <= i < |s| ==> WellFormed(s[i])
    case Obj(fs) => DistinctNames(fs) && forall i :: 0 <= i < |fs| ==> WellFormed(fs[i].val)
    case _ => true
  }

  /** The keys `_.each` visits, in order: indices of an array, names of an object,
      nothing for any other value. */
  function OwnKeys(v: Value): seq<Key> {
    match v
    case Arr(s) => seq(|s|, i requires 0 <= i => Index(i))
    case Obj(fs) => seq(|fs|, i requires 0 <= i < |fs| => Name(fs[i].name))
    case _ => []
  }

  /** The value of the first field called `n`. */
  function FieldValue(fs: seq<Field>, n: string): Option<Value> {
    if |fs| == 0 then None
    else if fs[0].name == n then Some(fs[0].val)
    else FieldValue(fs[1..], n)
  }

  /** `v[k]` for an own key `k` of `v`; None when `v` has no such own key. */
  function Lookup(v: Value, k: Key): Option<Value> {
    match v
    case Arr(s) => if k.Index? && k.i < |s| then Some(s[k.i]) else None
    case Obj(fs) => if k.Name? then FieldValue(fs, k.name) else None
    case _ => None
  }

  /** The value reached from `v` by following the own keys `ks`. */
  function ValueAt(v: Value, ks: seq<Key>): Option<Value>
    decreases |ks|
  {
    if ks == [] then Some(v)
    else match Lookup(v, ks[0])
      case None => None
      case Some(c) => ValueAt(c, ks[1..])
  }

  /** An array written through a property name, or a plain object through a
      numeric index: the property-name conversion of JavaScript is not modelled. */
  predicate KindMismatch(c: Value, k: Key) {
    (c.Arr? && k.Name?) || (c.Obj? && k.Index?)
  }

  function Holes(n: nat): (r: seq<Value>)
    ensures |r| == n && forall i :: 0 <= i < n ==> r[i] == Undefined
  {
    if n == 0 then [] else Holes(n - 1) + [Undefined]
  }

  /** Replaces the first field called `n`, or appends a new one at the end. */
  function PutField(fs: seq<Field>, n: string, x: Value): seq<Field> {
    if |fs| == 0 then [Field(n, x)]
    else if fs[0].name == n then [Field(n, x)] + fs[1..]
    else [fs[0]] + PutField(fs[1..], n, x)
  }

  /** The strict-mode assignment `c[k] = x`: None is the TypeError that assigning
      a property of undefined, null or a primitive raises. Writing an array index
      at or past the length grows the array, the gap reading as undefined. */
  function SlotWrite(c: Value, k: Key, x: Value): (r: Option<Value>)
    requires !KindMismatch(c, k)
    ensures r.Some? <==> IsComposite(c)
    ensures r.Some? ==> r.value.Arr? == c.Arr? && r.value.Obj? == c.Obj?
  {
    match c
    case Arr(s) =>
      if k.i < |s| then Some(Arr(s[k.i := x])) else Some(Arr(s + Holes(k.i - |s|) + [x]))
    case Obj(fs) => Some(Obj(PutField(fs, k.name, x)))
    case _ => None
  }

  /** lodash `_.isEqual` restricted to these values: same kind, equal scalars,
      arrays equal element by element, objects with the same number of own keys
      where every key of one is an own key of the other with an equal value
      (so the order of an object's keys does not matter). */
  predicate DeepEqual(a: Value, b: Value)
    decreases a
  {
    match a
    case Undefined => b.Undefined?
    case Null => b.Null?
    case Bool(x) => b.Bool? && b.b == x
    case Num(x) => b.Num? && b.n == x
    case Str(x) => b.Str? && b.s == x
    case Arr(s) =>
      b.Arr? && |s| == |b.elems| &&
      forall i :: 0 <= i < |s| ==> DeepEqual(s[i], b.elems[i])
    case Obj(fs) =>
      b.Obj? && |fs| == |b.fields| &&
      forall i :: 0 <= i < |fs| ==>
        var w := FieldValue(b.fields, fs[i].name);
        w.Some? && DeepEqual(fs[i].val, w.value)
  }

  // ---------------------------------------------------------------------------
  // Field lists

  lemma {:induction false} FieldValueSome(fs: seq<Field>, n: string)
    ensures FieldValue(fs, n).Some? <==> exists i :: 0 <= i < |fs| && fs[i].name == n
  {
    if |fs| > 0 && fs[0].name != n {
      FieldValueSome(fs[1..], n);
      if exists i :: 0 <= i < |fs| && fs[i].name == n {
        var i :| 0 <= i < |fs| && fs[i].name == n;
        assert fs[1..][i - 1].name == n;
      }
    }
  }

  lemma {:induction false} FieldValueAt(fs: seq<Field>, i: nat)
    requires DistinctNames(fs) && i < |fs|
    ensures FieldValue(fs, fs[i].name) == Some(fs[i].val)
  {
    if i > 0 {
      assert fs[0].name != fs[i].name;
      assert DistinctNames(fs[1..]) by {
        forall a, b | 0 <= a < b < |fs| - 1 ensures fs[1..][a].name != fs[1..][b].name {
          assert fs[a + 1].name != fs[b + 1].name;
        }
      }
      FieldValueAt(fs[1..], i - 1);
    }
  }

  lemma {:induction false} FieldValueWellFormed(fs: seq<Field>, n: string)
    requires FieldValue(fs, n).Some?
    requires WellFormed(Obj(fs))
    ensures WellFormed(FieldValue(fs, n).value)
  {
    if fs[0].name != n {
      assert WellFormed(Obj(fs[1..])) by {
        forall a, b | 0 <= a < b < |fs| - 1 ensures fs[1..][a].name != fs[1..][b].name {
          assert fs[a + 1].name != fs[b + 1].name;
        }
        forall a | 0 <= a < |fs| - 1 ensures WellFormed(fs[1..][a].val) {
          assert fs[1..][a] == fs[a + 1];
        }
      }
      FieldValueWellFormed(fs[1..], n);
    }
  }

  lemma {:induction false} PutFieldLookup(fs: seq<Field>, n: string, x: Value, m: string)
    ensures FieldValue(PutField(fs, n, x), m) == if m == n then Some(x) else FieldValue(fs, m)
  {
    if |fs| > 0 && fs[0].name != n {
      PutFieldLookup(fs[1..], n, x, m);
      assert PutField(fs, n, x)[1..] == PutField(fs[1..], n, x);
    } else if |fs| > 0 {
      assert PutField(fs, n, x)[1..] == fs[1..];
    }
  }

  lemma {:induction false} PutFieldNames(fs: seq<Field>, n: string, x: Value)
    ensures FieldValue(fs, n).Some? ==>
      |PutField(fs, n, x)| == |fs| && forall i :: 0 <= i < |fs| ==> PutField(fs, n, x)[i].name == fs[i].name
    ensures FieldValue(fs, n).None? ==> PutField(fs, n, x) == fs + [Field(n, x)]
  {
    if |fs| > 0 && fs[0].name != n {
      PutFieldNames(fs[1..], n, x);
      assert fs == [fs[0]] + fs[1..];
    }
  }

  // ---------------------------------------------------------------------------
  // Own keys and lookup

  /** The keys `walk` visits are exactly the keys that look something up. */
  lemma OwnKeysLookup(v: Value, k: Key)
    ensures k in OwnKeys(v) <==> Lookup(v, k).Some?
  {
    match v
    case Arr(s) =>
      if k in OwnKeys(v) {
        var i :| 0 <= i < |s| && OwnKeys(v)[i] == k;
      }
      if Lookup(v, k).Some? {
        assert OwnKeys(v)[k.i] == k;
      }
    case Obj(fs) =>
      if k.Name? {
        FieldValueSome(fs, k.name);
        if FieldValue(fs, k.name).Some? {
          var i :| 0 <= i < |fs| && fs[i].name == k.name;
          assert OwnKeys(v)[i] == k;
        }
      }
    case _ =>
  }

  /** The parts of a well-formed value are well-formed. */
  lemma LookupWellFormed(v: Value, k: Key)
    requires WellFormed(v) && Lookup(v, k).Some?
    ensures WellFormed(Lookup(v, k).value)
  {
    if v.Obj? {
      FieldValueWellFormed(v.fields, k.name);
    }
  }

  /** A well-formed value never lists an own key twice, so `walk` makes one child per key. */
  lemma OwnKeysDistinct(v: Value)
    requires WellFormed(v)
    ensures forall i, j :: 0 <= i < j < |OwnKeys(v)| ==> OwnKeys(v)[i] != OwnKeys(v)[j]
  {
  }

  /** The i-th own key of a well-formed value is not among the keys before it. */
  lemma OwnKeyFresh(v: Value, i: nat)
    requires WellFormed(v) && i < |OwnKeys(v)|
    ensures OwnKeys(v)[i] !in OwnKeys(v)[..i]
  {
    OwnKeysDistinct(v);
    assert forall j :: 0 <= j < i ==> OwnKeys(v)[..i][j] == OwnKeys(v)[j];
  }

  /** The child at the i-th own key of a well-formed composite value. */
  lemma LookupOwnKey(v: Value, i: nat)
    requires WellFormed(v) && i < |OwnKeys(v)|
    ensures v.Arr? ==> Lookup(v, OwnKeys(v)[i]) == Some(v.elems[i])
    ensures v.Obj? ==> Lookup(v, OwnKeys(v)[i]) == Some(v.fields[i].val)
  {
    if v.Obj? {
      FieldValueAt(v.fields, i);
    }
  }

  // ---------------------------------------------------------------------------
  // The parent-slot write

  /** A write succeeds exactly on arrays and objects; afterwards the slot reads
      back the written value and every other own key reads as before. */
  lemma SlotWriteReadBack(c: Value, k: Key, x: Value)
    requires !KindMismatch(c, k)
    ensures SlotWrite(c, k, x).Some? <==> IsComposite(c)
    ensures SlotWrite(c, k, x).Some? ==>
      var r := SlotWrite(c, k, x).value;
      Lookup(r, k) == Some(x) &&
      forall k' :: k' != k && k' in OwnKeys(c) ==> Lookup(r, k') == Lookup(c, k')
  {
    match c
    case Arr(s) =>
    case Obj(fs) =>
      forall m ensures FieldValue(PutField(fs, k.name, x), m) == if m == k.name then Some(x) else FieldValue(fs, m) {
        PutFieldLookup(fs, k.name, x, m);
      }
    case _ =>
  }

  /** Writing to an existing own key keeps the own keys; writing to a new one
      appends it (growing an array up to and including that index). */
  lemma SlotWriteOwnKeys(c: Value, k: Key, x: Value)
    requires !KindMismatch(c, k) && SlotWrite(c, k, x).Some?
    ensures k in OwnKeys(c) ==> OwnKeys(SlotWrite(c, k, x).value) == OwnKeys(c)
    ensures k !in OwnKeys(c) ==>
      var ks := OwnKeys(SlotWrite(c, k, x).value);
      |OwnKeys(c)| < |ks| && ks[..|OwnKeys(c)|] == OwnKeys(c) && ks[|ks| - 1] == k
  {
    OwnKeysLookup(c, k);
    match c
    case Arr(s) =>
    case Obj(fs) =>
      PutFieldNames(fs, k.name, x);
      FieldValueSome(fs, k.name);
  }

  /** Every field after assigning a property is the new one or an old one. */
  lemma {:induction false} PutFieldFrom(fs: seq<Field>, n: string, x: Value)
    ensures forall i :: 0 <= i < |PutField(fs, n, x)| ==>
      PutField(fs, n, x)[i] == Field(n, x) || PutField(fs, n, x)[i] in fs
  {
    if |fs| > 0 && fs[0].name != n {
      PutFieldFrom(fs[1..], n, x);
      forall i | 0 <= i < |PutField(fs, n, x)|
        ensures PutField(fs, n, x)[i] == Field(n, x) || PutField(fs, n, x)[i] in fs
      {
        if i > 0 {
          assert PutField(fs, n, x)[i] == PutField(fs[1..], n, x)[i - 1];
        }
      }
    } else if |fs| > 0 {
      forall i | 1 <= i < |PutField(fs, n, x)| ensures PutField(fs, n, x)[i] in fs {
        assert PutField(fs, n, x)[i] == fs[i];
      }
    }
  }

  /** The fields after the first of a well-formed object form a well-formed
      object none of whose names is the first field's. */
  lemma TailWellFormed(fs: seq<Field>)
    requires |fs| > 0 && WellFormed(Obj(fs))
    ensures WellFormed(Obj(fs[1..]))
    ensures forall j :: 0 <= j < |fs| - 1 ==> fs[1..][j].name != fs[0].name
  {
    var tl := fs[1..];
    forall a, b | 0 <= a < b < |tl| ensures tl[a].name != tl[b].name {
      assert fs[a + 1].name != fs[b + 1].name;
    }
    forall a | 0 <= a < |tl| ensures WellFormed(tl[a].val) && tl[a].name != fs[0].name {
      assert tl[a] == fs[a + 1];
    }
  }

  /** Assigning a property of a well-formed object keeps it well-formed. */
  lemma {:induction false} PutFieldWellFormed(fs: seq<Field>, n: string, x: Value)
    requires WellFormed(Obj(fs)) && WellFormed(x)
    ensures WellFormed(Obj(PutField(fs, n, x)))
  {
    if |fs| > 0 {
      var tl := fs[1..];
      TailWellFormed(fs);
      var r := PutField(fs, n, x);
      if fs[0].name != n {
        PutFieldWellFormed(tl, n, x);
        PutFieldFrom(tl, n, x);
        assert r == [fs[0]] + PutField(tl, n, x);
        forall a, b | 0 <= a < b < |r| ensures r[a].name != r[b].name {
          if a == 0 {
            assert r[b] == PutField(tl, n, x)[b - 1];
          }
        }
      } else {
        assert r == [Field(n, x)] + tl;
        forall a | 0 <= a < |r| ensures WellFormed(r[a].val) && (a > 0 ==> r[a] == tl[a - 1]) {
          if a > 0 {
            assert r[a] == tl[a - 1];
          }
        }
      }
    }
  }

  /** A successful write of a well-formed value into a well-formed container
      leaves it well-formed. */
  lemma SlotWriteWellFormed(c: Value, k: Key, x: Value)
    requires WellFormed(c) && WellFormed(x) && !KindMismatch(c, k) && SlotWrite(c, k, x).Some?
    ensures WellFormed(SlotWrite(c, k, x).value)
  {
    match c
    case Arr(s) =>
      if k.i >= |s| {
        var t := s + Holes(k.i - |s|) + [x];
        forall j | 0 <= j < |t| ensures WellFormed(t[j]) {
          if j < |s| {
            assert t[j] == s[j];
          } else if j < |s| + k.i - |s| {
            assert t[j] == Holes(k.i - |s|)[j - |s|];
          }
        }
      }
    case Obj(fs) =>
      PutFieldWellFormed(fs, k.name, x);
  }

  /** Writing back the value a slot already holds changes nothing. */
  lemma {:induction false} SlotWriteSame(c: Value, k: Key, x: Value)
    requires Lookup(c, k) == Some(x)
    ensures !KindMismatch(c, k) && SlotWrite(c, k, x) == Some(c)
  {
    match c
    case Arr(s) =>
      assert s[k.i := x] == s;
    case Obj(fs) =>
      PutFieldSame(fs, k.name, x);
  }

  lemma {:induction false} PutFieldSame(fs: seq<Field>, n: string, x: Value)
    requires FieldValue(fs, n) == Some(x)
    ensures PutField(fs, n, x) == fs
  {
    if fs[0].name != n {
      PutFieldSame(fs[1..], n, x);
    }
  }

  // ---------------------------------------------------------------------------
  // Deep equality

  /** Every well-formed value is deep-equal to itself. */
  lemma {:induction false} DeepEqualReflexive(v: Value)
    requires WellFormed(v)
    ensures DeepEqual(v, v)
  {
    match v
    case Arr(s) =>
      forall i | 0 <= i < |s| ensures DeepEqual(s[i], s[i]) {
        DeepEqualReflexive(s[i]);
      }
    case Obj(fs) =>
      forall i | 0 <= i < |fs|
        ensures FieldValue(fs, fs[i].name) == Some(fs[i].val) && DeepEqual(fs[i].val, fs[i].val)
      {
        FieldValueAt(fs, i);
        DeepEqualReflexive(fs[i].val);
      }
    case _ =>
  }

  /** Deep-equal values have the same own keys (as a set). */
  lemma DeepEqualOwnKeys(a: Value, b: Value, k: Key)
    requires DeepEqual(a, b)
    ensures k in OwnKeys(a) ==> k in OwnKeys(b)
  {
    OwnKeysLookup(a, k);
    OwnKeysLookup(b, k);
    if a.Obj? && k in OwnKeys(a) {
      FieldValueSome(a.fields, k.name);
      var i :| 0 <= i < |a.fields| && a.fields[i].name == k.name;
    }
  }

  /** Deep equality ignores the order of an object's keys. */
  lemma KeyOrderIgnored(x: Value, y: Value)
    requires WellFormed(x) && WellFormed(y)
    ensures DeepEqual(Obj([Field("a", x), Field("b", y)]), Obj([Field("b", y), Field("a", x)]))
    ensures Obj([Field("a", x), Field("b", y)]) != Obj([Field("b", y), Field("a", x)])
  {
    DeepEqualReflexive(x);
    DeepEqualReflexive(y);
  }
}
