/** JSON values, their canonical field order, and equality up to field order. */
module Json {
  import opened Common

  /** Objects list their fields in enumeration order; `undefined` is not a value. */
  datatype Value =
    | Null
    | Bool(b: bool)
    | Number(n: int)
    | Str(s: string)
    | Arr(items: seq<Value>)
    | Obj(fields: seq<Field>)

  datatype Field = Field(key: string, value: Value)

  type Order = (string, string) -> bool

  /** `before` is a strict total order on keys. */
  ghost predicate TotalOrder(before: Order) {
    && (forall a :: !before(a, a))
    && (forall a, b, c :: before(a, b) && before(b, c) ==> before(a, c))
    && (forall a, b :: a != b ==> before(a, b) || before(b, a))
  }

  predicate HasKey(fs: seq<Field>, key: string) {
    fs != [] && (fs[0].key == key || HasKey(fs[1..], key))
  }

  function Get(fs: seq<Field>, key: string): (v: Option<Value>)
    ensures v.Some? <==> HasKey(fs, key)
  {
    if fs == [] then None else if fs[0].key == key then Some(fs[0].value) else Get(fs[1..], key)
  }

  /** No key twice. */
  predicate DistinctKeys(fs: seq<Field>) {
    fs == [] || (!HasKey(fs[1..], fs[0].key) && DistinctKeys(fs[1..]))
  }

  /** No object anywhere inside has a key twice. */
  predicate Plain(v: Value)
    decreases v, 1
  {
    match v
    case Arr(items) => PlainItems(items)
    case Obj(fields) => DistinctKeys(fields) && PlainFields(fields)
    case _ => true
  }

  predicate PlainItems(items: seq<Value>)
    decreases items, 0
  {
    items == [] || (Plain(items[0]) && PlainItems(items[1..]))
  }

  predicate PlainFields(fs: seq<Field>)
    decreases fs, 0
  {
    fs == [] || (Plain(fs[0].value) && PlainFields(fs[1..]))
  }

  // ---------------------------------------------------------------------------
  // Canonical order
  // ---------------------------------------------------------------------------

  function Insert(before: Order, f: Field, fs: seq<Field>): seq<Field> {
    if fs == [] then [f]
    else if before(f.key, fs[0].key) then [f] + fs
    else [fs[0]] + Insert(before, f, fs[1..])
  }

  function Canonicalize(before: Order, v: Value): Value
    decreases v, 1
  {
    match v
    case Arr(items) => Arr(CanonicalItems(before, items))
    case Obj(fields) => Obj(CanonicalFields(before, fields))
    case _ => v
  }

  function CanonicalItems(before: Order, items: seq<Value>): (r: seq<Value>)
    ensures |r| == |items|
    decreases items, 0
  {
    if items == [] then [] else [Canonicalize(before, items[0])] + CanonicalItems(before, items[1..])
  }

  function CanonicalFields(before: Order, fs: seq<Field>): seq<Field>
    decreases fs, 0
  {
    if fs == [] then []
    else Insert(before, Field(fs[0].key, Canonicalize(before, fs[0].value)), CanonicalFields(before, fs[1..]))
  }

  predicate SortedFields(before: Order, fs: seq<Field>) {
    |fs| <= 1 || (before(fs[0].key, fs[1].key) && SortedFields(before, fs[1..]))
  }

  lemma {:induction false} InsertGet(before: Order, f: Field, fs: seq<Field>, key: string)
    requires !HasKey(fs, f.key)
    ensures Get(Insert(before, f, fs), key) == if key == f.key then Some(f.value) else Get(fs, key)
  {
    if fs != [] {
      if before(f.key, fs[0].key) {
        assert ([f] + fs)[1..] == fs;
      } else {
        InsertGet(before, f, fs[1..], key);
        var rest := Insert(before, f, fs[1..]);
        assert ([fs[0]] + rest)[1..] == rest;
      }
    }
  }

  lemma {:induction false} InsertSorted(before: Order, f: Field, fs: seq<Field>)
    requires TotalOrder(before) && SortedFields(before, fs) && !HasKey(fs, f.key)
    ensures SortedFields(before, Insert(before, f, fs))
  {
    if fs != [] {
      if before(f.key, fs[0].key) {
        assert ([f] + fs)[1..] == fs;
      } else {
        assert before(fs[0].key, f.key);
        InsertSorted(before, f, fs[1..]);
        var rest := Insert(before, f, fs[1..]);
        assert ([fs[0]] + rest)[1..] == rest;
      }
    }
  }

  /** Field by field, canonicalising keeps the keys and canonicalises the values. */
  lemma {:induction false} CanonicalGet(before: Order, fs: seq<Field>, key: string)
    requires DistinctKeys(fs)
    ensures var v := Get(fs, key);
            Get(CanonicalFields(before, fs), key) == if v.None? then None else Some(Canonicalize(before, v.value))
  {
    if fs != [] {
      CanonicalGet(before, fs[1..], key);
      CanonicalGet(before, fs[1..], fs[0].key);
      InsertGet(before, Field(fs[0].key, Canonicalize(before, fs[0].value)), CanonicalFields(before, fs[1..]), key);
    }
  }

  lemma {:induction false} CanonicalSorted(before: Order, fs: seq<Field>)
    requires TotalOrder(before) && DistinctKeys(fs)
    ensures SortedFields(before, CanonicalFields(before, fs))
  {
    if fs != [] {
      CanonicalSorted(before, fs[1..]);
      CanonicalGet(before, fs[1..], fs[0].key);
      InsertSorted(before, Field(fs[0].key, Canonicalize(before, fs[0].value)), CanonicalFields(before, fs[1..]));
    }
  }

  /** In a sorted object the first key comes before every other. */
  lemma {:induction false} FirstIsLeast(before: Order, fs: seq<Field>, key: string)
    requires TotalOrder(before) && SortedFields(before, fs) && fs != [] && HasKey(fs[1..], key)
    ensures before(fs[0].key, key)
  {
    if fs[1].key != key { FirstIsLeast(before, fs[1..], key); }
  }

  /** Sorted objects with the same field under every key are the same. */
  lemma {:induction false} SortedUnique(before: Order, fs: seq<Field>, gs: seq<Field>)
    requires TotalOrder(before) && SortedFields(before, fs) && SortedFields(before, gs)
    requires forall key :: Get(fs, key) == Get(gs, key)
    ensures fs == gs
  {
    assert fs != [] ==> Get(fs, fs[0].key).Some?;
    assert gs != [] ==> Get(gs, gs[0].key).Some?;
    if fs != [] {
      assert Get(gs, fs[0].key).Some?;
      assert Get(fs, gs[0].key).Some?;
      if fs[0].key != gs[0].key {
        FirstIsLeast(before, fs, gs[0].key);
        FirstIsLeast(before, gs, fs[0].key);
      }
      forall key ensures Get(fs[1..], key) == Get(gs[1..], key) {
        assert Get(fs, key) == Get(gs, key);
        if key == fs[0].key {
          if HasKey(fs[1..], key) { FirstIsLeast(before, fs, key); }
          if HasKey(gs[1..], key) { FirstIsLeast(before, gs, key); }
        }
      }
      SortedUnique(before, fs[1..], gs[1..]);
      assert fs == [fs[0]] + fs[1..] && gs == [gs[0]] + gs[1..];
    }
  }

  // ---------------------------------------------------------------------------
  // Equality up to field order
  // ---------------------------------------------------------------------------

  /** Equal when objects at any depth are compared as maps. */
  predicate Same(v: Value, w: Value)
    decreases v, 1
  {
    match v
    case Arr(items) => w.Arr? && SameItems(items, w.items)
    case Obj(fields) => w.Obj? && SameFields(fields, w.fields) && (forall f :: f in w.fields ==> HasKey(fields, f.key))
    case _ => v == w
  }

  predicate SameItems(items: seq<Value>, others: seq<Value>)
    decreases items, 0
  {
    |items| == |others| && (items == [] || (Same(items[0], others[0]) && SameItems(items[1..], others[1..])))
  }

  /** Every field has a counterpart under the same key. */
  predicate SameFields(fs: seq<Field>, gs: seq<Field>)
    decreases fs, 0
  {
    fs == [] || (HasKey(gs, fs[0].key) && Same(fs[0].value, Get(gs, fs[0].key).value) && SameFields(fs[1..], gs))
  }

  lemma {:induction false} SameFieldsGet(fs: seq<Field>, gs: seq<Field>, key: string)
    requires SameFields(fs, gs) && HasKey(fs, key)
    ensures HasKey(gs, key) && Same(Get(fs, key).value, Get(gs, key).value)
  {
    if fs[0].key != key { SameFieldsGet(fs[1..], gs, key); }
  }

  lemma {:induction false} KeyOfSome(fs: seq<Field>, key: string)
    ensures HasKey(fs, key) <==> exists f :: f in fs && f.key == key
  {
    if fs != [] {
      KeyOfSome(fs[1..], key);
      assert fs == [fs[0]] + fs[1..];
      assert fs[0] in fs;
    }
  }

  lemma {:induction false} GetPlain(fs: seq<Field>, key: string)
    requires PlainFields(fs) && HasKey(fs, key)
    ensures Plain(Get(fs, key).value)
  {
    if fs[0].key != key { GetPlain(fs[1..], key); }
  }

  /** Two plain values have one canonical form exactly when they are equal up to field order at every depth. */
  lemma {:induction false} CanonicalExact(before: Order, v: Value, w: Value)
    requires TotalOrder(before) && Plain(v) && Plain(w)
    ensures Same(v, w) <==> Canonicalize(before, v) == Canonicalize(before, w)
    decreases v, 1
  {
    if v.Arr? && w.Arr? {
      CanonicalItemsExact(before, v.items, w.items);
    } else if v.Obj? && w.Obj? {
      var fs, gs := v.fields, w.fields;
      var cs, ds := CanonicalFields(before, fs), CanonicalFields(before, gs);
      CanonicalFieldsExact(before, fs, gs);
      CanonicalSorted(before, fs);
      CanonicalSorted(before, gs);
      forall key ensures HasKey(gs, key) <==> exists f :: f in gs && f.key == key { KeyOfSome(gs, key); }
      if Same(v, w) {
        forall key ensures Get(cs, key) == Get(ds, key) {
          CanonicalGet(before, fs, key);
          CanonicalGet(before, gs, key);
          assert AgreesAt(before, fs, gs, key);
          KeyOfSome(gs, key);
        }
        SortedUnique(before, cs, ds);
      }
      if cs == ds {
        forall f | f in gs ensures HasKey(fs, f.key) {
          assert HasKey(gs, f.key);
          CanonicalGet(before, fs, f.key);
          CanonicalGet(before, gs, f.key);
        }
        forall key ensures AgreesAt(before, fs, gs, key) {
          CanonicalGet(before, fs, key);
          CanonicalGet(before, gs, key);
        }
      }
    }
  }

  /** What stands under a key canonicalises alike on both sides. */
  predicate AgreesAt(before: Order, fs: seq<Field>, gs: seq<Field>, key: string) {
    HasKey(fs, key) ==> HasKey(gs, key) && Canonicalize(before, Get(fs, key).value) == Canonicalize(before, Get(gs, key).value)
  }

  /** Per key: counterparts are equal up to order exactly when they canonicalise alike. */
  lemma {:induction false} CanonicalFieldsExact(before: Order, fs: seq<Field>, gs: seq<Field>)
    requires TotalOrder(before) && DistinctKeys(fs) && PlainFields(fs) && PlainFields(gs)
    ensures SameFields(fs, gs) <==> forall key :: AgreesAt(before, fs, gs, key)
    decreases fs, 0
  {
    if fs != [] {
      var first := fs[0].key;
      CanonicalFieldsExact(before, fs[1..], gs);
      if HasKey(gs, first) {
        GetPlain(gs, first);
        CanonicalExact(before, fs[0].value, Get(gs, first).value);
      }
      forall key ensures AgreesAt(before, fs[1..], gs, key) <==> (key == first || AgreesAt(before, fs, gs, key)) {
      }
      if SameFields(fs, gs) {
        forall key ensures AgreesAt(before, fs, gs, key) {
          assert AgreesAt(before, fs[1..], gs, key);
        }
      }
      if forall key :: AgreesAt(before, fs, gs, key) {
        assert AgreesAt(before, fs, gs, first);
        forall key ensures AgreesAt(before, fs[1..], gs, key) {
          assert AgreesAt(before, fs, gs, key);
        }
      }
    }
  }

  lemma {:induction false} CanonicalItemsExact(before: Order, items: seq<Value>, others: seq<Value>)
    requires TotalOrder(before) && PlainItems(items) && PlainItems(others)
    ensures SameItems(items, others) <==> CanonicalItems(before, items) == CanonicalItems(before, others)
    decreases items, 0
  {
    if items != [] && others != [] {
      CanonicalExact(before, items[0], others[0]);
      CanonicalItemsExact(before, items[1..], others[1..]);
      var cs, ds := CanonicalItems(before, items), CanonicalItems(before, others);
      assert cs[1..] == CanonicalItems(before, items[1..]) && ds[1..] == CanonicalItems(before, others[1..]);
      assert cs == [cs[0]] + cs[1..] && ds == [ds[0]] + ds[1..];
    }
  }

  // ---------------------------------------------------------------------------
  // Canonical values
  // ---------------------------------------------------------------------------

  /** Every object inside is sorted. */
  predicate IsCanonical(before: Order, v: Value)
    decreases v, 1
  {
    match v
    case Arr(items) => CanonicalAll(before, items)
    case Obj(fields) => SortedFields(before, fields) && CanonicalEach(before, fields)
    case _ => true
  }

  predicate CanonicalAll(before: Order, items: seq<Value>)
    decreases items, 0
  {
    items == [] || (IsCanonical(before, items[0]) && CanonicalAll(before, items[1..]))
  }

  predicate CanonicalEach(before: Order, fs: seq<Field>)
    decreases fs, 0
  {
    fs == [] || (IsCanonical(before, fs[0].value) && CanonicalEach(before, fs[1..]))
  }

  lemma {:induction false} InsertEach(before: Order, f: Field, fs: seq<Field>)
    requires CanonicalEach(before, fs) && IsCanonical(before, f.value)
    ensures CanonicalEach(before, Insert(before, f, fs))
  {
    if fs != [] {
      if before(f.key, fs[0].key) {
        assert ([f] + fs)[1..] == fs;
      } else {
        InsertEach(before, f, fs[1..]);
        var rest := Insert(before, f, fs[1..]);
        assert ([fs[0]] + rest)[1..] == rest;
      }
    }
  }

  lemma {:induction false} SortedDistinct(before: Order, fs: seq<Field>)
    requires TotalOrder(before) && SortedFields(before, fs)
    ensures DistinctKeys(fs)
  {
    if fs != [] {
      if |fs| > 1 { SortedDistinct(before, fs[1..]); }
      if HasKey(fs[1..], fs[0].key) { FirstIsLeast(before, fs, fs[0].key); }
    }
  }

  /** Canonicalising a plain value gives a canonical and plain one. */
  lemma {:induction false} CanonicalizeIsCanonical(before: Order, v: Value)
    requires TotalOrder(before) && Plain(v)
    ensures IsCanonical(before, Canonicalize(before, v)) && Plain(Canonicalize(before, v))
    decreases v, 1
  {
    match v {
      case Arr(items) => ItemsCanonical(before, items);
      case Obj(fields) =>
        FieldsCanonical(before, fields);
        CanonicalSorted(before, fields);
        SortedDistinct(before, CanonicalFields(before, fields));
      case _ =>
    }
  }

  lemma {:induction false} ItemsCanonical(before: Order, items: seq<Value>)
    requires TotalOrder(before) && PlainItems(items)
    ensures CanonicalAll(before, CanonicalItems(before, items)) && PlainItems(CanonicalItems(before, items))
    decreases items, 0
  {
    if items != [] {
      CanonicalizeIsCanonical(before, items[0]);
      ItemsCanonical(before, items[1..]);
      var c := CanonicalItems(before, items);
      assert c[1..] == CanonicalItems(before, items[1..]);
    }
  }

  lemma {:induction false} InsertPlain(before: Order, f: Field, fs: seq<Field>)
    requires PlainFields(fs) && Plain(f.value)
    ensures PlainFields(Insert(before, f, fs))
  {
    if fs != [] {
      if before(f.key, fs[0].key) {
        assert ([f] + fs)[1..] == fs;
      } else {
        InsertPlain(before, f, fs[1..]);
        var rest := Insert(before, f, fs[1..]);
        assert ([fs[0]] + rest)[1..] == rest;
      }
    }
  }

  lemma {:induction false} FieldsCanonical(before: Order, fs: seq<Field>)
    requires TotalOrder(before) && PlainFields(fs)
    ensures CanonicalEach(before, CanonicalFields(before, fs)) && PlainFields(CanonicalFields(before, fs))
    decreases fs, 0
  {
    if fs != [] {
      CanonicalizeIsCanonical(before, fs[0].value);
      FieldsCanonical(before, fs[1..]);
      var f := Field(fs[0].key, Canonicalize(before, fs[0].value));
      InsertEach(before, f, CanonicalFields(before, fs[1..]));
      InsertPlain(before, f, CanonicalFields(before, fs[1..]));
    }
  }

  /** Canonical values are left alone. */
  lemma {:induction false} CanonicalIsFixed(before: Order, v: Value)
    requires TotalOrder(before) && IsCanonical(before, v)
    ensures Canonicalize(before, v) == v
    decreases v, 1
  {
    match v {
      case Arr(items) => ItemsFixed(before, items);
      case Obj(fields) => FieldsFixed(before, fields);
      case _ =>
    }
  }

  lemma {:induction false} ItemsFixed(before: Order, items: seq<Value>)
    requires TotalOrder(before) && CanonicalAll(before, items)
    ensures CanonicalItems(before, items) == items
    decreases items, 0
  {
    if items != [] {
      CanonicalIsFixed(before, items[0]);
      ItemsFixed(before, items[1..]);
      assert items == [items[0]] + items[1..];
    }
  }

  lemma {:induction false} FieldsFixed(before: Order, fs: seq<Field>)
    requires TotalOrder(before) && SortedFields(before, fs) && CanonicalEach(before, fs)
    ensures CanonicalFields(before, fs) == fs
    decreases fs, 0
  {
    if fs != [] {
      CanonicalIsFixed(before, fs[0].value);
      FieldsFixed(before, fs[1..]);
      assert fs == [fs[0]] + fs[1..];
      assert Field(fs[0].key, fs[0].value) == fs[0];
    }
  }
}
