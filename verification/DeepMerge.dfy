/**
 Deep merge of plain objects with the default strategies.
 */
module DeepMerge {

  /** `Method` stands for what is read from a prototype. */
  datatype Tree = Undefined | Null | Num(number: real) | Bool(flag: bool) | Method(name: string)
                | Object(fields: map<string, Tree>)

  /** The property names of `Object.prototype`; those of `Boolean.prototype` are among them. */
  const OBJECT_NAMES: set<string> := {
    "constructor", "hasOwnProperty", "isPrototypeOf", "propertyIsEnumerable", "toLocaleString", "toString", "valueOf",
    "__proto__", "__defineGetter__", "__defineSetter__", "__lookupGetter__", "__lookupSetter__"
  }

  const NUMBER_NAMES: set<string> := {"toExponential", "toFixed", "toPrecision"}

  /** Not to be read from any prototype. */
  predicate IsOrdinary(key: string) { key !in OBJECT_NAMES && key !in NUMBER_NAMES }

  function Inherited(t: Tree, key: string): Tree {
    if t == Undefined || t == Null then Undefined
    else if key in OBJECT_NAMES || (t.Num? && key in NUMBER_NAMES) then Method(key)
    else Undefined
  }

  /** `t?.[key]`. */
  function Read(t: Tree, key: string): Tree {
    if t.Object? && key in t.fields then t.fields[key] else Inherited(t, key)
  }

  /** The own property names of `t ?? {}`. */
  function Keys(t: Tree): set<string> {
    if t.Object? then t.fields.Keys else {}
  }

  /** The strategy for a primitive value on the left. */
  function Primitive(left: Tree, right: Tree): Tree {
    if right == Undefined then left else right
  }

  function Merge(a: Tree, b: Tree): Tree
    decreases a
  {
    if !a.Object? then Primitive(a, b)
    else Object(map key | key in a.fields.Keys + Keys(b) ::
                  if key in a.fields then Merge(a.fields[key], Read(b, key))
                  else Primitive(Inherited(a, key), Read(b, key)))
  }

  // ----------------------------------------------------------------- domain

  /** Made of ordinary keys, and nothing read from a prototype. */
  ghost predicate Plain(t: Tree) {
    && !t.Method?
    && (t.Object? ==> forall key :: key in t.fields ==> IsOrdinary(key) && Plain(t.fields[key]))
  }

  type PlainTree = t: Tree | Plain(t) witness Undefined

  lemma {:induction false} MergePlain(a: PlainTree, b: PlainTree)
    ensures Plain(Merge(a, b))
    decreases a
  {
    if a.Object? {
      forall key | key in Keys(Merge(a, b)) ensures IsOrdinary(key) && Plain(Merge(a, b).fields[key]) {
        if key in a.fields {
          MergePlain(a.fields[key], Read(b, key));
        }
      }
    }
  }

  // ------------------------------------------------------------------- laws

  /** `undefined` changes nothing, on either side, whatever the keys; neither does `null` on the right of an object. */
  lemma {:induction false} UndefinedIsIdentity(a: Tree)
    ensures Merge(a, Undefined) == a && Merge(Undefined, a) == a
    ensures a.Object? ==> Merge(a, Null) == a
    decreases a
  {
    if a.Object? {
      var merged, kept := Merge(a, Undefined).fields, Merge(a, Null).fields;
      assert merged.Keys == a.fields.Keys == kept.Keys;
      forall key | key in a.fields ensures merged[key] == a.fields[key] == kept[key] {
        UndefinedIsIdentity(a.fields[key]);
      }
    }
  }

  /** Neither does a value that is not an object, on the right of an object. */
  lemma ObjectsPrevail(a: PlainTree, b: PlainTree)
    requires a.Object? && !b.Object?
    ensures Merge(a, b) == a
  {
    var merged := Merge(a, b).fields;
    assert merged.Keys == a.fields.Keys;
    forall key | key in merged ensures merged[key] == a.fields[key] {
      UndefinedIsIdentity(a.fields[key]);
    }
  }

  predicate AssociateOn(a: Tree, b: Tree, c: Tree) {
    Merge(Merge(a, b), c) == Merge(a, Merge(b, c))
  }

  /** Associativity at one key of the merged objects, from that of the values there. */
  lemma AssociativeAt(a: PlainTree, b: PlainTree, c: PlainTree, key: string)
    requires a.Object? && IsOrdinary(key)
    requires key in a.fields ==> AssociateOn(a.fields[key], Read(b, key), Read(c, key))
    ensures Read(Merge(Merge(a, b), c), key) == Read(Merge(a, Merge(b, c)), key)
  {
    MergePlain(a, b);
    MergePlain(b, c);
    MergedRead(a, b, key);
    MergedRead(b, c, key);
    MergedRead(Merge(a, b), c, key);
    MergedRead(a, Merge(b, c), key);
  }

  lemma AssociativeOnLeaf(a: PlainTree, b: PlainTree, c: PlainTree)
    requires !a.Object?
    ensures AssociateOn(a, b, c)
  {
    if b.Object? && !c.Object? {
      ObjectsPrevail(b, c);
    }
  }

  lemma SameObject(x: Tree, y: Tree)
    requires x.Object? && y.Object? && Keys(x) == Keys(y)
    requires forall key :: key in Keys(x) ==> Read(x, key) == Read(y, key)
    ensures x == y
  {
    assert forall key :: key in x.fields ==> x.fields[key] == Read(x, key) && y.fields[key] == Read(y, key);
    assert x.fields == y.fields;
  }

  function MergedField(a: Tree, b: Tree, key: string): Tree
    requires a.Object?
  {
    if key in a.fields then Merge(a.fields[key], Read(b, key)) else Primitive(Inherited(a, key), Read(b, key))
  }

  lemma MergedObject(a: Tree, b: Tree)
    requires a.Object?
    ensures Merge(a, b).Object? && Keys(Merge(a, b)) == Keys(a) + Keys(b)
    ensures forall key :: key in Keys(Merge(a, b)) ==> Merge(a, b).fields[key] == MergedField(a, b, key)
  {
  }

  lemma {:induction false} MergeIsAssociative(a: PlainTree, b: PlainTree, c: PlainTree)
    ensures Merge(Merge(a, b), c) == Merge(a, Merge(b, c))
    decreases a
  {
    hide Merge, Read, Plain, IsOrdinary;
    if a.Object? {
      MergePlain(a, b);
      MergePlain(b, c);
      var left, right := Merge(Merge(a, b), c), Merge(a, Merge(b, c));
      MergedObject(a, b);
      MergedObject(Merge(a, b), c);
      MergedObject(a, Merge(b, c));
      KeysAgree(a, b, c);
      forall key | key in Keys(left) ensures Read(left, key) == Read(right, key) {
        ReadOrdinary(a, b, c, key);
        if key in a.fields {
          FieldIsPlain(a, key);
          MergeIsAssociative(a.fields[key], Read(b, key), Read(c, key));
        }
        AssociativeAt(a, b, c, key);
      }
      SameObject(left, right);
    } else {
      AssociativeOnLeaf(a, b, c);
    }
  }

  lemma FieldIsPlain(a: PlainTree, key: string)
    requires a.Object? && key in a.fields
    ensures Plain(a.fields[key])
  {
  }

  lemma KeysAgree(a: PlainTree, b: PlainTree, c: PlainTree)
    requires a.Object?
    ensures Keys(Merge(Merge(a, b), c)) == Keys(Merge(a, Merge(b, c)))
  {
    if b.Object? {
      assert Keys(Merge(b, c)) == Keys(b) + Keys(c);
    }
  }

  lemma ReadOrdinary(a: PlainTree, b: PlainTree, c: PlainTree, key: string)
    requires a.Object? && key in Keys(Merge(Merge(a, b), c))
    ensures IsOrdinary(key) && Plain(Read(a, key)) && Plain(Read(b, key)) && Plain(Read(c, key))
  {
  }

  /** Reading an ordinary key commutes with merging. */
  lemma MergedRead(a: PlainTree, b: PlainTree, key: string)
    requires IsOrdinary(key)
    ensures Plain(Read(a, key)) && Plain(Read(b, key))
    ensures Read(Merge(a, b), key) == Merge(Read(a, key), Read(b, key))
  {
    if a.Object? && key !in a.fields && key !in Keys(b) {
      assert key !in Merge(a, b).fields;
    }
  }

  function ReadPath(t: Tree, path: seq<string>): Tree
    decreases |path|
  {
    if path == [] then t else ReadPath(Read(t, path[0]), path[1..])
  }

  type OrdinaryPath = path: seq<string> | forall k :: 0 <= k < |path| ==> IsOrdinary(path[k]) witness []

  /** Reading any path of ordinary keys commutes with merging. */
  lemma {:induction false} ReadPathCommutes(a: PlainTree, b: PlainTree, path: OrdinaryPath)
    ensures Plain(ReadPath(a, path)) && Plain(ReadPath(b, path))
    ensures ReadPath(Merge(a, b), path) == Merge(ReadPath(a, path), ReadPath(b, path))
    decreases |path|
  {
    if path != [] {
      MergedRead(a, b, path[0]);
      ReadPathCommutes(Read(a, path[0]), Read(b, path[0]), path[1..]);
    }
  }

  /**
   The laws need the ordinary keys: with any other one even associativity fails, as the value on the
   left gives way to what is read from the prototype of a number.
   */
  lemma AssociativityNeedsOrdinaryKey(key: string, flag: bool)
    ensures var a := Object(map[key := Bool(flag)]);
      Merge(Merge(a, Num(0.0)), Null) == Merge(a, Merge(Num(0.0), Null)) <==> IsOrdinary(key)
  {
    var a := Object(map[key := Bool(flag)]);
    var merged := Merge(a, Num(0.0));
    assert Merge(a, Null).fields == a.fields;
    assert merged.fields.Keys == {key};
    assert merged.fields[key] == Merge(Bool(flag), Read(Num(0.0), key));
    assert merged.fields == map[key := merged.fields[key]];
    assert Merge(merged, Null).fields == merged.fields;
  }

  // ------------------------------------------------------------------ method

  lemma CopyIsMerge(a: Tree, b: Tree, copy: map<string, Tree>)
    requires a.Object? && copy.Keys == a.fields.Keys + Keys(b)
    requires forall key :: key in copy ==> copy[key] == MergedField(a, b, key)
    ensures Object(copy) == Merge(a, b)
  {
    MergedObject(a, b);
    hide Merge, MergedField;
    assert copy == Merge(a, b).fields;
  }

  /** The recursion, with its loop over the keys of both sides. */
  method DeepMergeTrees(a: Tree, b: Tree) returns (merged: Tree)
    ensures merged == Merge(a, b)
    decreases a
  {
    if !a.Object? {
      return Primitive(a, b);
    }
    hide Merge, Read, Inherited, Primitive;
    var keys := a.fields.Keys + Keys(b);
    var copy: map<string, Tree>, rest := map[], keys;
    while rest != {}
      invariant rest <= keys && copy.Keys == keys - rest
      invariant forall key :: key in copy ==> copy[key] == MergedField(a, b, key)
    {
      var key :| key in rest;
      if key in a.fields {
        var value := DeepMergeTrees(a.fields[key], Read(b, key));
        copy := copy[key := value];
      } else {
        copy := copy[key := Primitive(Inherited(a, key), Read(b, key))];
      }
      rest := rest - {key};
    }
    CopyIsMerge(a, b, copy);
    return Object(copy);
  }
}
