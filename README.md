# ward: the wrapper tree

This project models the mutable wrapper tree of `ward` (`index.js`) and proves
properties of that model. `ward(value)` builds a root wrapper. Each wrapper:

- holds a JavaScript value;
- lists the own keys it last walked in `keys`;
- hangs one child accessor per key on itself;
- keeps its path from the root and a reference to its parent.

Calling an accessor with `undefined` reads the wrapper's value. Calling it with
anything else runs `set`:

1. A value deep-equal to the current one is refused, and `set` returns `false`.
2. Otherwise the value is stored.
3. The value is also written into the parent's value at the last key of the path.
4. The old child accessors are deleted (`clean`).
5. New child accessors are built for every own key of the new value (`walk`).
6. `set` returns `true`.

Building is mutually recursive: `create` runs `Wrapper`, which runs the
accessor, which runs `set`, then `walk`, then `create` again for each child.

Two modules:

- `Values` (`values.dfy`) covers the JavaScript values the tree holds.
  - Objects are ordered field lists with distinct names. The order is the
    enumeration order.
  - `DeepEqual` is lodash's `_.isEqual`. It ignores the order of an object's
    keys.
  - `OwnKeys` gives the keys `_.each` visits.
  - `Lookup` and `ValueAt` read a value by key and by path.
  - `SlotWrite` is the strict-mode assignment `container[key] = x`. It raises a
    TypeError on undefined, null and primitives. An array written past its end
    grows, with undefined holes.
- `WardTree` (`ward.dfy`) covers the tree itself.
  - Class `Wrapper` has mutable fields `value`, `keys`, `children` (the
    accessor properties, by key), `path` and `parent`.
  - Its methods are the constructor, `Accessor`, `Set`, `Clean`, `Walk` (with
    its `_.each` step `Each` and callback `Visit`) and `Create`.
  - `Ward` builds the root.
  - The invariant `Valid()` is the bookkeeping, holding at every wrapper of the
    subtree:
    - `keys` are the own keys of `value`, in order;
    - there is exactly one child per key;
    - that child's parent is this wrapper, its path is this path plus the key,
      and its value is the value at that key;
    - no child lies in a sibling's subtree.

The model follows `index.js` as written. Some `tests.js` cases describe a later,
persistent design that this code does not implement: `set` returning a new
handle, input isolation, `keys`/`count`, and coercion. That design is not
modelled. Only the tests that agree with the code became examples.

## Model

| member | source | states |
|---|---|---|
| WardTree.Wrapper.Set | index.js:28-46 | One `Committed` predicate states the result, for every case. A value deep-equal to the current one gives `false` and changes nothing: not the value, keys, children or footprint, nor the parent's value. Otherwise the value becomes the new one. With a parent, the parent's value becomes the strict-mode write of the new value at the last path key. The result is `true`, or TypeError exactly when that write is impossible (never at the root). After `true`, the whole subtree is `Valid()` with `keys` equal to the new value's own keys, and the new subtree is added to the parent's footprint. A parent whose bookkeeping held before still has it. A parent that was `Valid()` before, with this wrapper as its child at the last path key, is `Valid()` again, its untouched siblings included. |
| WardTree.Wrapper.ParentCoherent | index.js:37-39 | After a commit through a child, the parent keeps its bookkeeping if it had it, and its whole validity if it had it. |
| WardTree.Wrapper.ParentStaysValid | index.js:37-42 | After a valid parent's child commits, the parent is valid again. The child's new subtree is part of the parent's footprint, and the siblings' subtrees are unchanged. |
| WardTree.Wrapper.Untouched | index.js:78-86 | A valid wrapper none of whose subtree changed is still valid, with the same footprint. |
| WardTree.Wrapper.ParentKeepsBookkeeping | index.js:37-39 | Patching the parent's slot at the child's key keeps the parent's own keys, its one-child-per-key links and the value each sibling reads. |
| WardTree.Wrapper.Accessor | index.js:14-19 | `undefined` gives `Read` of the current value and changes no field of this wrapper or its parent. Any other argument gives `Wrote` of the outcome of `set`, with everything `Set` promises. |
| WardTree.Wrapper.constructor | index.js:8-25 | A wrapper built from `v` at path `p` under `owner` holds `v`, has that path and parent, is `Valid()` over a fresh footprint, and leaves the owner's value as it was. The owner's footprint grows by at most the new subtree. The initial write-back into the owner's slot is a no-op. |
| WardTree.Wrapper.Clean | index.js:70-76 | Afterwards `keys` is empty, and `children` equals the old children minus every key that was listed. |
| WardTree.Wrapper.Walk | index.js:78-86 | Starting from the state `clean` leaves, `keys` becomes exactly the own keys of the new value, in enumeration order (empty for scalars, null and undefined). There is one valid child per key over fresh objects. Value, path and parent are unchanged. |
| WardTree.Wrapper.Each | index.js:81-84 | One step of `_.each`: the i-th own key is appended to `keys` and the tree shape is kept. |
| WardTree.Wrapper.Visit | index.js:82-83 | The callback: a child created from the value under key `k` is stored at `k`, `k` is appended to `keys`, and the subtree stays a well-linked tree. |
| WardTree.Wrapper.Create | index.js:94-98 | `create` called on a wrapper returns a fresh valid wrapper holding `v` at path `p`, whose parent is the calling wrapper. The caller keeps its value, and its footprint grows by at most the new subtree. |
| WardTree.Ward | index.js:89-101 | The root is fresh and valid, holds the given value, and has path `[]` and no parent. |
| WardTree.DescendReadsBack | index.js:78-86 | Following child accessors `ks` from a valid wrapper reaches a wrapper exactly when the value has a part at `ks`. That wrapper holds the part, is valid, and its path is the start path followed by `ks`, so path length equals depth. |
| WardTree.DescendParent | index.js:94-97 | The parent of the wrapper at `ks` is the wrapper at `ks` minus its last key, which is the one whose `create` made it. |
| WardTree.ReadPrimitive | tests.js:6-10 | `ward(2)` read through its accessor gives 2. |
| WardTree.ReadNested | tests.js:12-19 | `ward({prop: 2, vector: [1, 2, 3]})` reads back the whole value, `prop` gives 2, `vector` gives `[1, 2, 3]` and `vector[1]` gives 2. |
| WardTree.WriteNestedPrimitive | index.js:35-39 | `ward({nested: 'a'})` then `nested('b')` returns true. The child reads `'b'`, and the root reads `{nested: 'b'}` and is valid again. |
| WardTree.WriteLeavesSibling | index.js:37-42 | `ward({x: 1, y: [2]})` then `x(9)` returns true. The root holds `{x: 9, y: [2]}` and its whole tree is valid, with the sibling `y` and its child included. |
| WardTree.WriteX | index.js:37-42 | The write half of the previous example, from any valid root holding `{x: 1, y: [2]}` whose child at `x` is the writer. |
| WardTree.PatchX | index.js:38 | Writing 9 at `x` into `{x: 1, y: [2]}` gives `{x: 9, y: [2]}`: the slot is replaced in place and the other field kept. |
| WardTree.RemovesOldWrappers | index.js:41-42 | `ward({nested: {a: 1}})` then `nested({b: 3})` returns true. The accessor `a` is gone and `b` reads 3. |
| WardTree.ReplaceNested | index.js:41-42 | The write half of the previous example, from any wrapper at path `["nested"]` holding `{a: 1}` under a parent holding `{nested: {a: 1}}`. |
| WardTree.EquivalentWrite | index.js:30-33 | `ward({a: {b: 0}})` then `a({b: 0})` returns false, and both wrappers keep their values. |
| Values.IsComposite | index.js:80 | Only arrays and plain objects are walked into. Every other value (undefined, null, booleans, numbers, strings) gets no children. |
| Values.OwnKeys | index.js:81 | The keys `_.each` visits, in enumeration order: indices `0 .. n-1` of an array, field names in order for an object, none for anything else. |
| Values.DeepEqual | index.js:31 | lodash `_.isEqual`: scalars are equal by kind and value, arrays element by element, objects when they have the same number of own keys and every key of one maps to a deep-equal value in the other. Object key order is ignored. |
| Values.SlotWrite | index.js:38 | Strict-mode `c[k] = x`. The write succeeds exactly on arrays and objects, keeping the container's kind. It raises TypeError on undefined, null and primitives. An array index at or past the length grows the array, the gap reading undefined. An object property is replaced where it stands, or appended when new. |
| Values.OwnKeysLookup | index.js:80-81 | A key is among the own keys `_.each` visits exactly when looking it up finds something. |
| Values.OwnKeysDistinct | index.js:81-83 | A well-formed value lists no own key twice. |
| Values.OwnKeyFresh | index.js:81-83 | The i-th own key of a well-formed value is not among the keys visited before it, so `walk` never pushes a key twice. |
| Values.LookupOwnKey | index.js:81-82 | The value `_.each` hands over with the i-th own key is the i-th element of an array, or the i-th field of an object. |
| Values.LookupWellFormed | index.js:82 | The part under a key of a well-formed value is well-formed. |
| Values.SlotWriteReadBack | index.js:38 | The write succeeds exactly on arrays and objects. Afterwards the key reads back the written value and every other own key reads as before. |
| Values.SlotWriteOwnKeys | index.js:38 | Writing an existing key keeps the own keys. Writing a new key extends them, keeping the old ones as a prefix, so the key comes last. |
| Values.SlotWriteSame | index.js:38 | Writing back the value a slot already holds is a no-op. |
| Values.Holes | index.js:38 | The undefined holes of an array grown past its end have the requested count and all read undefined. |
| Values.FieldValueSome | index.js:81 | An object looks up a name exactly when some field has that name. |
| Values.FieldValueAt | index.js:81 | In an object with distinct names, looking up the name of field i gives field i's value. |
| Values.PutFieldLookup | index.js:38 | After assigning a property, that name reads the new value and every other name reads as before. |
| Values.PutFieldFrom | index.js:38 | Every field after assigning a property is the assigned one or an old one. |
| Values.TailWellFormed | index.js:38 | The fields after the first of a well-formed object are well-formed, and none repeats the first name. |
| Values.PutFieldWellFormed | index.js:38 | Assigning a property of a well-formed object keeps names distinct and parts well-formed. |
| Values.SlotWriteWellFormed | index.js:38 | The parent's value stays well-formed after its slot is patched, so the parent's validity can hold again. |
| Values.PutFieldNames | index.js:38 | Assigning an existing property keeps the names and their order. Assigning a new one appends it. |
| Values.DeepEqualReflexive | index.js:31 | Every well-formed value is deep-equal to itself, so re-setting a value that is already there returns false. |
| Values.DeepEqualOwnKeys | index.js:31 | Every own key of a value is also an own key of any value deep-equal to it. |
| Values.KeyOrderIgnored | index.js:31 | `{a, b}` and `{b, a}` are deep-equal although they differ as data, so `set` returns false for a reordered object. |

## Left out

- The event emitter (EventEmitter2) is a foreign library and is not modelled: the `emit` in `set` (index.js:43), `addObserver` with its `'**'` subscriptions and `_.difference` path computation (index.js:48-68), and `ward.observe` (index.js:103-105).
- The `console.log` in `addObserver` (index.js:50) is I/O.
- lodash is foreign code, modelled only as `DeepEqual`, `IsComposite` and `OwnKeys`.
  - Numbers are integers: floats, NaN, `-0` and typed values are not modelled.
  - lodash's handling of array-like objects (a `length` property) is not modelled.
  - JavaScript's rule that enumerates integer-like object keys first is not modelled. Field-list order stands for enumeration order.
- The `Object.create` prototype chain, `_.extend`, and the hidden `__ward__` property (index.js:5-6, 21, 90-97) are plumbing. They are modelled as explicit `parent` references and a `children` map.
- Accessor properties are modelled as a map, apart from the function object's own properties. So a child key such as `name` or `length` that collides with a built-in function property is not modelled.
- Object aliasing is not modelled. The caller's object and the parent's `value` are shared JavaScript objects, so a nested write is visible to every ancestor. The model performs only the one-level parent-slot write the code states. Likewise the stored value's isolation from later mutation by the caller (tests.js:21-37) is not a property of this code.
- WardTree.Wrapper.Set: after a write through a child, the parent's validity is re-established, with its siblings' subtrees (`ParentStaysValid`). Validity is not re-established for the grandparent and higher ancestors. In JavaScript their values follow through the shared objects above; the model holds each value as a separate datatype and patches only one level. So after a write two or more levels below a wrapper, `Valid()` of that wrapper, and the read-back lemmas that rest on it, are not claimed.
- Self-referential values are not modelled. `Value` is an inductive datatype, so it cannot express an object that contains itself. In JavaScript such a value makes `walk` recurse through `create` until the stack overflows (index.js:78-86, 94-97).
- WardTree.Wrapper.Set: a write through a stale handle is excluded by its precondition. This is a wrapper whose parent now holds an array while its last key is a name, or an object while its last key is an index. JavaScript's conversion of property names to indices is not modelled. The handle's own bookkeeping is not required first: `set` rebuilds all children.
- WardTree.Wrapper.Walk: specified from the state `clean` and `set` leave it in (no keys, no children), the only state it is called from.
- WardTree.Wrapper.constructor: specified for its two call sites, the root (no owner) and `create` on a wrapper whose value holds `v` at the last path key.
- The tests that describe a persistent design are not modelled, because this `index.js` does not do what they check:
  - handle-returning `set` (tests.js:44-128). For example, tests.js:64-75 expects the root to keep `{nested: 'a'}` after `nested('b')`, while the code overwrites the parent's slot, as `WriteNestedPrimitive` shows.
  - reading the result of a write of `undefined` as an accessor (tests.js:39-42). The code returns the plain value there.
  - observers (tests.js:130-249);
  - `ward.keys`/`ward.count` (tests.js:251-269);
  - coercion (tests.js:271-296).
