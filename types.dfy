/** The type bucket registry and the walk that fills it. A bucket is kept per
    type name; it lists, in the order they were added, every value of that
    type and every array of that type with the window its elements occupy in
    the value list. The registry is a sequence of buckets in creation order.

    The walk is given twice: as functions on the registry (`WalkedMsg` and
    its helpers), which the lemmas of `WalkFacts` reason about, and as the
    methods of `TypeTable`, which update the registry in place as the
    compiler does and are proved to compute exactly those functions. */
module Types {
  import opened Instance
  import Names

  /** An array record: where the array's elements start in the bucket's
      value list, how many there are, and which array it is. */
  datatype ArrayRec = ArrayRec(offset: nat, len: nat, ptr: ArrRef)

  /** A bucket (a type table entry): the type name, the kind of the field
      that created it, that name converted to a C identifier, the values and
      arrays with the allocated sizes of both lists. */
  datatype Bucket = Bucket(
    key: string,
    kind: Kind,
    cident: string,
    values: seq<Value>,
    valuesSize: nat,
    arrays: seq<ArrayRec>,
    arraysSize: nat)

  type Table = seq<Bucket>

  function Max(a: int, b: int): int {
    if a < b then b else a
  }

  /** The size of a list after an append: doubled, and at least 4, when the
      list is full. */
  function Grow(len: nat, size: nat): nat {
    if len == size then Max(size * 2, 4) else size
  }

  /** The bucket created for the first field of a type: no values, no arrays. */
  function NewBucket(k: Kind): Bucket {
    Bucket(TypeKey(k), k, Names.CIdent(TypeKey(k)), [], 0, [], 0)
  }

  /** The table lookup by type name: the index of the bucket, or -1. */
  function FindKey(t: Table, key: string): (r: int)
    ensures -1 <= r < |t|
    ensures r >= 0 ==> t[r].key == key && forall i :: 0 <= i < r ==> t[i].key != key
    ensures r < 0 <==> forall i :: 0 <= i < |t| ==> t[i].key != key
  {
    FindKeyFrom(t, key, 0)
  }

  function FindKeyFrom(t: Table, key: string, from: nat): (r: int)
    requires from <= |t|
    requires forall i :: 0 <= i < from ==> t[i].key != key
    ensures -1 <= r < |t| && (r >= 0 ==> from <= r)
    ensures r >= 0 ==> t[r].key == key && forall i :: 0 <= i < r ==> t[i].key != key
    ensures r < 0 <==> forall i :: 0 <= i < |t| ==> t[i].key != key
    decreases |t| - from
  {
    if from == |t| then -1
    else if t[from].key == key then from
    else FindKeyFrom(t, key, from + 1)
  }

  predicate HasKey(t: Table, key: string) {
    FindKey(t, key) >= 0
  }

  /** `get_or_insert_typeentry`, the table it leaves: a new bucket is added
      only when the type name has none. */
  function Registered(t: Table, k: Kind): Table {
    if HasKey(t, TypeKey(k)) then t else t + [NewBucket(k)]
  }

  /** `get_or_insert_typeentry`, the bucket it returns. */
  function BucketIndex(t: Table, k: Kind): nat
  {
    var i := FindKey(Registered(t, k), TypeKey(k));
    if i < 0 then 0 else i
  }

  lemma RegisteredHasKey(t: Table, k: Kind)
    ensures HasKey(Registered(t, k), TypeKey(k))
    ensures BucketIndex(t, k) < |Registered(t, k)|
    ensures Registered(t, k)[BucketIndex(t, k)].key == TypeKey(k)
  {
    if !HasKey(t, TypeKey(k)) {
      var u := Registered(t, k);
      assert u[|t|].key == TypeKey(k);
    }
  }

  function PushValue(b: Bucket, v: Value): Bucket {
    b.(values := b.values + [v], valuesSize := Grow(|b.values|, b.valuesSize))
  }

  function PushArray(b: Bucket, arr: ArrRef): Bucket {
    b.(arrays := b.arrays + [ArrayRec(|b.values|, |arr.elems|, arr)],
       arraysSize := Grow(|b.arrays|, b.arraysSize))
  }

  /** `add_value`: appends `v` to the bucket of kind `k`. */
  function WithValue(t: Table, k: Kind, v: Value): Table {
    RegisteredHasKey(t, k);
    var u := Registered(t, k);
    var i := BucketIndex(t, k);
    u[i := PushValue(u[i], v)]
  }

  /** The array record `add_submsgs` appends before pushing the elements. */
  function WithArray(t: Table, k: Kind, arr: ArrRef): Table {
    RegisteredHasKey(t, k);
    var u := Registered(t, k);
    var i := BucketIndex(t, k);
    u[i := PushArray(u[i], arr)]
  }

  /** The first pass over an array: its first `n` elements pushed in order. */
  function WithValues(t: Table, k: Kind, elems: seq<Value>, n: nat): Table
    requires n <= |elems|
  {
    if n == 0 then t else WithValue(WithValues(t, k, elems, n - 1), k, elems[n - 1])
  }

  lemma WithValuesNext(t: Table, k: Kind, elems: seq<Value>, n: nat)
    requires n < |elems|
    ensures WithValues(t, k, elems, n + 1) == WithValue(WithValues(t, k, elems, n), k, elems[n])
  {
  }

  /** The second pass over an array: the walk of its first `n` message elements. */
  function Descended(t: Table, f: Field, n: nat): Table
    requires f.slot.Many? && n <= |f.slot.arr.elems|
    decreases f, n
  {
    if n == 0 then t
    else
      var t' := Descended(t, f, n - 1);
      match f.slot.arr.elems[n - 1]
      case Ref(x) => WalkedMsg(t', x)
      case _ => t'
  }

  /** One field of `add_submsgs`: unset fields and repeated string fields are
      skipped; an array gets its record, then all its elements, then the walk
      of each element; a singular submessage is pushed, then walked; other
      singular fields are skipped. */
  function Walked(t: Table, f: Field): Table
    decreases f
  {
    match f.slot
    case Unset => t
    case Many(arr) =>
      if f.kind.Str? then t
      else Descended(WithValues(WithArray(t, f.kind, arr), f.kind, arr.elems, |arr.elems|), f, |arr.elems|)
    case Single(v) =>
      if f.kind.Sub? && v.Ref? then WalkedMsg(WithValue(t, f.kind, v), v.m) else t
  }

  function WalkedFields(t: Table, m: Msg, n: nat): Table
    requires n <= |m.fields|
    decreases m, n
  {
    if n == 0 then t else Walked(WalkedFields(t, m, n - 1), m.fields[n - 1])
  }

  /** `add_submsgs`: the fields of `m` in declaration order. */
  function WalkedMsg(t: Table, m: Msg): Table
    decreases m
  {
    WalkedFields(t, m, |m.fields|)
  }

  /** The registry the data dump builds: the root pushed through an invented
      field of the root's type, then `add_submsgs` on the root. */
  function RootWalk(root: Msg): Table {
    WalkedMsg(WithValue([], RootKind(root), Ref(root)), root)
  }

  /** The type table the walk updates in place. `get_or_insert_typeentry`
      returns the address of an entry; here it returns the bucket's index. */
  class TypeTable {
    var buckets: Table

    constructor ()
      ensures buckets == []
    {
      buckets := [];
    }

    /** `get_or_insert_typeentry`: looks the type name up and adds a new,
        empty bucket, with the name converted by `to_cident`, when it is
        missing. */
    method GetOrInsert(k: Kind) returns (i: nat)
      modifies this
      ensures buckets == Registered(old(buckets), k)
      ensures i == BucketIndex(old(buckets), k)
      ensures i < |buckets| && buckets[i].key == TypeKey(k)
    {
      RegisteredHasKey(buckets, k);
      var key := TypeKey(k);
      var found := FindKey(buckets, key);
      if found < 0 {
        var buf := new char[|key|](j requires 0 <= j < |key| => key[j]);
        assert buf[..] == key;
        Names.ToCIdent(buf);
        buckets := buckets + [Bucket(key, k, buf[..], [], 0, [], 0)];
        i := |buckets| - 1;
      } else {
        i := found;
      }
    }

    /** `add_value`: grows the value list when it is full, then appends. */
    method AddValue(v: Value, k: Kind)
      modifies this
      ensures buckets == WithValue(old(buckets), k, v)
    {
      var i := GetOrInsert(k);
      var b := buckets[i];
      var size := b.valuesSize;
      if |b.values| == size {
        size := Max(size * 2, 4);
      }
      buckets := buckets[i := b.(values := b.values + [v], valuesSize := size)];
    }

    /** `add_submsgs`: the fields of `m` in declaration order. */
    method AddSubmsgs(m: Msg)
      modifies this
      ensures buckets == WalkedMsg(old(buckets), m)
      decreases m, 1
    {
      var i := 0;
      while i < |m.fields|
        invariant 0 <= i <= |m.fields|
        invariant buckets == WalkedFields(old(buckets), m, i)
      {
        AddField(m.fields[i]);
        i := i + 1;
      }
    }

    /** One field of `add_submsgs`: unset fields, repeated string fields and
        singular non-message fields are skipped. */
    method AddField(f: Field)
      modifies this
      ensures buckets == Walked(old(buckets), f)
      decreases f, 2
    {
      match f.slot {
        case Unset =>
        case Many(arr) =>
          if !f.kind.Str? {
            AddArray(f);
          }
        case Single(v) =>
          if f.kind.Sub? && v.Ref? {
            AddValue(v, f.kind);
            AddSubmsgs(v.m);
          }
      }
    }

    /** A set, non-string array field: its record starts at the current
        value count; every element is pushed; only then is each element
        walked, so the elements stay contiguous in the value list. */
    method AddArray(f: Field)
      requires f.slot.Many? && !f.kind.Str?
      modifies this
      ensures buckets == Walked(old(buckets), f)
      decreases f, 1
    {
      var arr := f.slot.arr;
      AddArrayRecord(arr, f.kind);
      AddElements(arr.elems, f.kind);
      DescendElements(f);
    }

    /** Adds the array to the list of arrays of its type, starting at the
        current value count. */
    method AddArrayRecord(arr: ArrRef, k: Kind)
      modifies this
      ensures buckets == WithArray(old(buckets), k, arr)
    {
      var a := GetOrInsert(k);
      var b := buckets[a];
      var size := b.arraysSize;
      if |b.arrays| == size {
        size := Max(size * 2, 4);
      }
      buckets := buckets[a := b.(arrays := b.arrays + [ArrayRec(|b.values|, |arr.elems|, arr)],
                                 arraysSize := size)];
    }

    /** Pushes the individual values of an array, in order. */
    method AddElements(elems: seq<Value>, k: Kind)
      modifies this
      ensures buckets == WithValues(old(buckets), k, elems, |elems|)
    {
      var j := 0;
      while j < |elems|
        invariant 0 <= j <= |elems|
        invariant buckets == WithValues(old(buckets), k, elems, j)
      {
        AddValue(elems[j], k);
        WithValuesNext(old(buckets), k, elems, j);
        j := j + 1;
      }
    }

    /** Walks the elements of an array that are messages, in order. */
    method DescendElements(f: Field)
      requires f.slot.Many?
      modifies this
      ensures buckets == Descended(old(buckets), f, |f.slot.arr.elems|)
      decreases f, 0
    {
      var elems := f.slot.arr.elems;
      var j := 0;
      while j < |elems|
        invariant 0 <= j <= |elems|
        invariant buckets == Descended(old(buckets), f, j)
      {
        match elems[j] {
          case Ref(x) => AddSubmsgs(x);
          case _ =>
        }
        j := j + 1;
      }
    }

    /** The start of the walk: the root through an invented field of its own
        type, then `add_submsgs` on the root. */
    method AddRoot(root: Msg)
      modifies this
      requires buckets == []
      ensures buckets == RootWalk(root)
    {
      AddValue(Ref(root), RootKind(root));
      AddSubmsgs(root);
    }
  }
}
