/** Properties of the type bucket registry and of the walk that fills it:
    buckets only grow at their ends, each array's elements occupy one
    unbroken window of its bucket, the root sits at index 0, and every
    submessage and array the walk can reach is registered. */
module WalkFacts {
  import opened Instance
  import opened Types
  import Names

  // ---------------------------------------------------------------------
  // Invariants of the registry.

  /** Every array record lies inside the value list, covers exactly its
      array's elements in order, and records follow each other without
      overlapping. */
  predicate RecordsPlaced(b: Bucket) {
    && (forall i :: 0 <= i < |b.arrays| ==>
          b.arrays[i].offset + b.arrays[i].len <= |b.values| && b.arrays[i].len == |b.arrays[i].ptr.elems|)
    && (forall i, j :: 0 <= i < |b.arrays| && 0 <= j < b.arrays[i].len ==>
          b.values[b.arrays[i].offset + j] == b.arrays[i].ptr.elems[j])
    && (forall i :: 0 < i < |b.arrays| ==> b.arrays[i - 1].offset + b.arrays[i - 1].len <= b.arrays[i].offset)
  }

  predicate BucketValid(b: Bucket) {
    && |b.values| <= b.valuesSize
    && |b.arrays| <= b.arraysSize
    && b.key == TypeKey(b.kind)
    && b.cident == Names.CIdent(b.key)
    && RecordsPlaced(b)
  }

  predicate KeysDistinct(t: Table) {
    forall i, j :: 0 <= i < j < |t| ==> t[i].key != t[j].key
  }

  /** The invariant the walk keeps: one bucket per type name, every list
      within its allocated size, every array contiguous. */
  predicate Registry(t: Table) {
    KeysDistinct(t) && forall i :: 0 <= i < |t| ==> BucketValid(t[i])
  }

  /** `u` is `t` with values and arrays appended and buckets added at the end. */
  predicate Extends(t: Table, u: Table) {
    |t| <= |u| &&
    forall i :: 0 <= i < |t| ==>
      u[i].key == t[i].key && u[i].kind == t[i].kind && u[i].cident == t[i].cident &&
      t[i].values <= u[i].values && t[i].arrays <= u[i].arrays
  }

  lemma ExtendsRefl(t: Table)
    ensures Extends(t, t)
  {
  }

  lemma ExtendsTrans(t: Table, u: Table, w: Table)
    requires Extends(t, u) && Extends(u, w)
    ensures Extends(t, w)
  {
    forall i | 0 <= i < |t|
      ensures t[i].values <= w[i].values && t[i].arrays <= w[i].arrays
    {
      PrefixTrans(t[i].values, u[i].values, w[i].values);
      PrefixTrans(t[i].arrays, u[i].arrays, w[i].arrays);
    }
  }

  lemma PrefixTrans<T>(a: seq<T>, b: seq<T>, c: seq<T>)
    requires a <= b && b <= c
    ensures a <= c
  {
    assert a == b[..|a|] && b == c[..|b|];
    assert c[..|b|][..|a|] == c[..|a|];
  }

  lemma PrefixSnoc<T>(s: seq<T>, n: nat)
    requires 0 < n <= |s|
    ensures s[..n] == s[..n - 1] + [s[n - 1]]
  {
  }

  /** A bucket found in `t` is found at the same index in every extension. */
  lemma ExtendsFindKey(t: Table, u: Table, key: string)
    requires Extends(t, u) && HasKey(t, key)
    ensures FindKey(u, key) == FindKey(t, key)
  {
    var i := FindKey(t, key);
    assert u[i].key == key;
    forall j | 0 <= j < i ensures u[j].key != key {
      assert t[j].key != key;
    }
  }

  // ---------------------------------------------------------------------
  // get_or_insert_typeentry and add_value.

  /** A second call with the same type name returns the same bucket and
      changes nothing; a bucket created by the first call starts empty; a
      bucket that already existed is returned untouched. */
  lemma GetOrInsertIdempotent(t: Table, k: Kind)
    ensures Registered(Registered(t, k), k) == Registered(t, k)
    ensures BucketIndex(Registered(t, k), k) == BucketIndex(t, k)
    ensures HasKey(t, TypeKey(k)) ==> Registered(t, k) == t
    ensures !HasKey(t, TypeKey(k)) ==>
      BucketIndex(t, k) == |t| && Registered(t, k) == t + [NewBucket(k)] &&
      NewBucket(k).values == [] && NewBucket(k).arrays == []
  {
    RegisteredHasKey(t, k);
    if !HasKey(t, TypeKey(k)) {
      var u := Registered(t, k);
      assert u[|t|].key == TypeKey(k);
      assert forall i :: 0 <= i < |t| ==> u[i].key != TypeKey(k);
    }
  }

  /** `add_value` appends exactly one value, at the old length of the value
      list, keeps every earlier value and every other bucket, and keeps the
      length within the allocated size. */
  lemma AddValueAppends(t: Table, k: Kind, v: Value)
    ensures var u := Registered(t, k); var i := BucketIndex(t, k); var w := WithValue(t, k, v);
      && i < |u| == |w|
      && w[i].key == TypeKey(k)
      && w[i].values == u[i].values + [v]
      && w[i].values[|u[i].values|] == v
      && w[i].arrays == u[i].arrays
      && (|u[i].values| <= u[i].valuesSize ==> |w[i].values| <= w[i].valuesSize)
      && (forall j :: 0 <= j < |u| && j != i ==> w[j] == u[j])
  {
    RegisteredHasKey(t, k);
  }

  /** The record `add_submsgs` creates for an array starts at the bucket's
      current value count and spans the array's length. */
  lemma ArrayRecordAtCreation(t: Table, k: Kind, arr: ArrRef)
    ensures var u := Registered(t, k); var i := BucketIndex(t, k); var w := WithArray(t, k, arr);
      && i < |u| == |w|
      && w[i].arrays == u[i].arrays + [ArrayRec(|u[i].values|, |arr.elems|, arr)]
      && w[i].values == u[i].values
      && (forall j :: 0 <= j < |u| && j != i ==> w[j] == u[j])
  {
    RegisteredHasKey(t, k);
  }

  lemma RegisteredKeeps(t: Table, k: Kind)
    requires Registry(t)
    ensures Registry(Registered(t, k)) && Extends(t, Registered(t, k))
  {
    if !HasKey(t, TypeKey(k)) {
      var u := Registered(t, k);
      assert u[|t|] == NewBucket(k);
      forall i, j | 0 <= i < j < |u| ensures u[i].key != u[j].key {
        if j == |t| {
          assert t[i].key != TypeKey(k);
        }
      }
    }
  }

  lemma PushValuePlaced(b: Bucket, v: Value)
    requires BucketValid(b)
    ensures BucketValid(PushValue(b, v))
  {
    var c := PushValue(b, v);
    forall i, j | 0 <= i < |c.arrays| && 0 <= j < c.arrays[i].len
      ensures c.values[c.arrays[i].offset + j] == c.arrays[i].ptr.elems[j]
    {
      assert c.values[c.arrays[i].offset + j] == b.values[b.arrays[i].offset + j];
    }
  }

  lemma WithValueKeeps(t: Table, k: Kind, v: Value)
    requires Registry(t)
    ensures Registry(WithValue(t, k, v)) && Extends(t, WithValue(t, k, v))
  {
    RegisteredKeeps(t, k);
    RegisteredHasKey(t, k);
    var u := Registered(t, k);
    var i := BucketIndex(t, k);
    PushValuePlaced(u[i], v);
    OneBucketChanged(u, WithValue(t, k, v), i);
    ExtendsTrans(t, u, WithValue(t, k, v));
  }

  /** `add_value` on a type that already has a bucket updates that bucket in place. */
  lemma WithValueExisting(t: Table, k: Kind, v: Value)
    requires HasKey(t, TypeKey(k))
    ensures BucketIndex(t, k) == FindKey(t, TypeKey(k))
    ensures WithValue(t, k, v) == t[FindKey(t, TypeKey(k)) := PushValue(t[FindKey(t, TypeKey(k))], v)]
  {
  }

  /** The bucket `b` after some values were appended to it. */
  predicate Appended(b: Bucket, c: Bucket, vs: seq<Value>) {
    && c.key == b.key && c.kind == b.kind && c.cident == b.cident
    && c.arrays == b.arrays && c.arraysSize == b.arraysSize
    && c.values == b.values + vs
    && (|b.values| <= b.valuesSize ==> |c.values| <= c.valuesSize)
  }

  /** `w` is `t` with the values `vs` appended to bucket `i` and nothing
      else changed. */
  predicate Shape(t: Table, w: Table, i: int, vs: seq<Value>) {
    && 0 <= i < |t| == |w|
    && Appended(t[i], w[i], vs)
    && (forall j :: 0 <= j < |t| && j != i ==> w[j] == t[j])
  }

  /** The shape of the first pass over an array: the bucket gets the first
      `n` elements appended, in order, and nothing else changes. */
  lemma {:induction false} WithValuesShape(t: Table, k: Kind, elems: seq<Value>, n: nat)
    requires n <= |elems| && HasKey(t, TypeKey(k))
    ensures Shape(t, WithValues(t, k, elems, n), FindKey(t, TypeKey(k)), elems[..n])
  {
    var i := FindKey(t, TypeKey(k));
    if n == 0 {
      assert elems[..0] == [];
    } else {
      WithValuesShape(t, k, elems, n - 1);
      var w' := WithValues(t, k, elems, n - 1);
      SameIndex(t, w', TypeKey(k), i);
      WithValueExisting(w', k, elems[n - 1]);
      Types.WithValuesNext(t, k, elems, n - 1);
      PrefixSnoc(elems, n);
      ShapeStep(t, w', i, elems[..n - 1], elems[n - 1]);
    }
  }

  lemma ShapeStep(t: Table, w: Table, i: int, vs: seq<Value>, v: Value)
    requires Shape(t, w, i, vs)
    ensures Shape(t, w[i := PushValue(w[i], v)], i, vs + [v])
  {
    AppendedStep(t[i], w[i], vs, v);
  }

  lemma SameIndex(t: Table, w: Table, key: string, i: int)
    requires i == FindKey(t, key) && i >= 0 && |w| == |t|
    requires w[i].key == t[i].key
    requires forall j :: 0 <= j < |t| && j != i ==> w[j] == t[j]
    ensures FindKey(w, key) == i
  {
    forall j | 0 <= j < i ensures w[j].key != key {
      assert w[j] == t[j];
    }
  }

  lemma AppendedStep(b: Bucket, c: Bucket, vs: seq<Value>, v: Value)
    requires Appended(b, c, vs)
    ensures Appended(b, PushValue(c, v), vs + [v])
  {
    assert b.values + vs + [v] == b.values + (vs + [v]);
  }

  /** An array step keeps the invariant: the array's record and elements
      are appended together, so the record covers exactly those elements. */
  lemma ArrayStepKeeps(t: Table, k: Kind, arr: ArrRef)
    requires Registry(t)
    ensures var w := WithValues(WithArray(t, k, arr), k, arr.elems, |arr.elems|);
      Registry(w) && Extends(t, w)
  {
    RegisteredKeeps(t, k);
    var u := Registered(t, k);
    var i := BucketIndex(t, k);
    var a := WithArray(t, k, arr);
    WithArrayAt(t, k, arr);
    WithValuesShape(a, k, arr.elems, |arr.elems|);
    var w := WithValues(a, k, arr.elems, |arr.elems|);
    assert arr.elems[..|arr.elems|] == arr.elems;
    RecordThenValues(u, a, w, i, arr);
    ExtendsTrans(t, u, w);
  }

  /** `WithArray` updates the bucket `get_or_insert_typeentry` returns, which
      the lookup then finds at the same index. */
  lemma WithArrayAt(t: Table, k: Kind, arr: ArrRef)
    ensures var u := Registered(t, k); var i := BucketIndex(t, k); var a := WithArray(t, k, arr);
      && i < |u| && a == u[i := PushArray(u[i], arr)]
      && FindKey(a, TypeKey(k)) == i
  {
    RegisteredHasKey(t, k);
    var u := Registered(t, k);
    var i := BucketIndex(t, k);
    SameIndex(u, WithArray(t, k, arr), TypeKey(k), i);
  }

  /** A record pushed onto bucket `i` of a valid table, followed by the
      array's elements, leaves a valid table that extends the old one. */
  lemma RecordThenValues(u: Table, a: Table, w: Table, i: nat, arr: ArrRef)
    requires Registry(u) && i < |u| && a == u[i := PushArray(u[i], arr)]
    requires Shape(a, w, i, arr.elems)
    ensures Registry(w) && Extends(u, w)
  {
    ArrayBucketValid(u[i], w[i], arr);
    assert u[i].values <= w[i].values by {
      assert w[i].values == u[i].values + arr.elems;
    }
    assert u[i].arrays <= w[i].arrays by {
      assert w[i].arrays == u[i].arrays + [ArrayRec(|u[i].values|, |arr.elems|, arr)];
    }
    OneBucketChanged(u, w, i);
  }

  /** A table that differs from a valid one only in one bucket, which keeps
      its name and stays valid, is valid; when that bucket only grew, the
      table extends the old one. */
  lemma OneBucketChanged(u: Table, w: Table, i: nat)
    requires Registry(u) && |w| == |u| && i < |u|
    requires BucketValid(w[i]) && w[i].key == u[i].key && w[i].kind == u[i].kind && w[i].cident == u[i].cident
    requires u[i].values <= w[i].values && u[i].arrays <= w[i].arrays
    requires forall j :: 0 <= j < |u| && j != i ==> w[j] == u[j]
    ensures Registry(w) && Extends(u, w)
  {
    assert forall j :: 0 <= j < |w| ==> w[j].key == u[j].key;
  }

  /** A bucket with one more array record whose elements were appended
      right after is still valid. */
  lemma ArrayBucketValid(b: Bucket, c: Bucket, arr: ArrRef)
    requires BucketValid(b)
    requires Appended(PushArray(b, arr), c, arr.elems)
    ensures BucketValid(c)
  {
    assert c.values == b.values + arr.elems;
    assert c.arrays == b.arrays + [ArrayRec(|b.values|, |arr.elems|, arr)];
    forall r, j | 0 <= r < |c.arrays| && 0 <= j < c.arrays[r].len
      ensures c.values[c.arrays[r].offset + j] == c.arrays[r].ptr.elems[j]
    {
      if r < |b.arrays| {
        assert c.values[c.arrays[r].offset + j] == b.values[b.arrays[r].offset + j];
      } else {
        assert c.values[|b.values| + j] == arr.elems[j];
      }
    }
  }

  // ---------------------------------------------------------------------
  // The walk keeps the invariant and only appends.

  lemma {:induction false} DescendedKeeps(t: Table, f: Field, n: nat)
    requires f.slot.Many? && n <= |f.slot.arr.elems|
    requires Registry(t)
    ensures Registry(Descended(t, f, n)) && Extends(t, Descended(t, f, n))
    decreases f, n
  {
    if n == 0 {
      ExtendsRefl(t);
    } else {
      DescendedKeeps(t, f, n - 1);
      var t' := Descended(t, f, n - 1);
      match f.slot.arr.elems[n - 1] {
        case Ref(x) =>
          WalkedMsgKeeps(t', x);
          ExtendsTrans(t, t', WalkedMsg(t', x));
        case _ =>
      }
    }
  }

  lemma {:induction false} WalkedKeeps(t: Table, f: Field)
    requires Registry(t)
    ensures Registry(Walked(t, f)) && Extends(t, Walked(t, f))
    decreases f
  {
    match f.slot {
      case Unset =>
        ExtendsRefl(t);
      case Many(arr) =>
        if f.kind.Str? {
          ExtendsRefl(t);
        } else {
          var w := WithValues(WithArray(t, f.kind, arr), f.kind, arr.elems, |arr.elems|);
          ArrayStepKeeps(t, f.kind, arr);
          DescendedKeeps(w, f, |arr.elems|);
          ExtendsTrans(t, w, Walked(t, f));
        }
      case Single(v) =>
        if f.kind.Sub? && v.Ref? {
          var u := WithValue(t, f.kind, v);
          WithValueKeeps(t, f.kind, v);
          WalkedMsgKeeps(u, v.m);
          ExtendsTrans(t, u, Walked(t, f));
        } else {
          ExtendsRefl(t);
        }
    }
  }

  lemma {:induction false} WalkedFieldsKeeps(t: Table, m: Msg, n: nat)
    requires n <= |m.fields|
    requires Registry(t)
    ensures Registry(WalkedFields(t, m, n)) && Extends(t, WalkedFields(t, m, n))
    decreases m, n
  {
    if n == 0 {
      ExtendsRefl(t);
    } else {
      WalkedFieldsKeeps(t, m, n - 1);
      var t' := WalkedFields(t, m, n - 1);
      WalkedKeeps(t', m.fields[n - 1]);
      ExtendsTrans(t, t', WalkedFields(t, m, n));
    }
  }

  /** `add_submsgs` keeps the registry invariant, and it only appends: no
      value or array record already in a bucket moves or changes, and new
      buckets are added after the existing ones. */
  lemma WalkedMsgKeeps(t: Table, m: Msg)
    requires Registry(t)
    ensures Registry(WalkedMsg(t, m)) && Extends(t, WalkedMsg(t, m))
    decreases m
  {
    WalkedFieldsKeeps(t, m, |m.fields|);
  }

  /** Records of one bucket have disjoint windows in increasing order. */
  lemma {:induction false} RecordsDisjoint(b: Bucket, i: nat, j: nat)
    requires RecordsPlaced(b) && i < j < |b.arrays|
    ensures b.arrays[i].offset + b.arrays[i].len <= b.arrays[j].offset
    decreases j - i
  {
    if i + 1 < j {
      RecordsDisjoint(b, i + 1, j);
    }
  }

  // ---------------------------------------------------------------------
  // The root.

  lemma RootStart(root: Msg)
    ensures var t0 := WithValue([], RootKind(root), Ref(root));
      |t0| == 1 && t0[0].key == root.fqname && t0[0].values == [Ref(root)] && t0[0].arrays == [] &&
      Registry(t0)
  {
    WithValueKeeps([], RootKind(root), Ref(root));
  }

  /** The registry the walk produces keeps the invariant, and the root is
      the first value of the first bucket, the one named after its type. */
  lemma RootAtZero(root: Msg)
    ensures var t := RootWalk(root);
      Registry(t) && |t| > 0 && t[0].key == root.fqname && |t[0].values| > 0 && t[0].values[0] == Ref(root) &&
      FindKey(t, TypeKey(RootKind(root))) == 0
  {
    var t0 := WithValue([], RootKind(root), Ref(root));
    RootStart(root);
    WalkedMsgKeeps(t0, root);
    var t := RootWalk(root);
    assert [Ref(root)] <= t[0].values;
  }

  /** A singular submessage is pushed before its own walk starts: it sits
      at the end of its bucket in `u`, and the walk of its descendants
      only appends to `u`, so it keeps that index and everything the walk
      adds comes after it. */
  lemma PushedBeforeDescendants(t: Table, f: Field)
    requires Registry(t)
    requires f.kind.Sub? && f.slot.Single? && f.slot.v.Ref?
    ensures var u := WithValue(t, f.kind, f.slot.v); var i := BucketIndex(t, f.kind);
      && i < |u| && |u[i].values| > 0 && u[i].values[|u[i].values| - 1] == f.slot.v
      && Walked(t, f) == WalkedMsg(u, f.slot.v.m)
      && Extends(u, Walked(t, f))
  {
    AddValueAppends(t, f.kind, f.slot.v);
    WithValueKeeps(t, f.kind, f.slot.v);
    WalkedMsgKeeps(WithValue(t, f.kind, f.slot.v), f.slot.v.m);
  }
}
