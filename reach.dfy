/** What the walk leaves in the type buckets: every message it can reach sits
    in a bucket, every array and every singular submessage of a reached
    message can be found in the bucket of its field's type, and the buckets
    hold nothing that is not reached. These are the facts the identity scans
    of the emission rely on. */
module Reach {
  import opened Instance
  import opened Types
  import opened WalkFacts
  import opened Strings

  // ---------------------------------------------------------------------
  // Membership in the subtree.

  lemma {:induction false} FieldInFields(m: Msg, j: nat, n: nat)
    requires j < n <= |m.fields|
    ensures FieldSubtree(m.fields[j]) <= FieldsSubtree(m, n)
    decreases n
  {
    if j < n - 1 {
      FieldInFields(m, j, n - 1);
    }
  }

  /** The messages below a field of `m` are below `m`. */
  lemma FieldInSubtree(m: Msg, j: nat)
    requires j < |m.fields|
    ensures FieldSubtree(m.fields[j]) <= Subtree(m)
  {
    FieldInFields(m, j, |m.fields|);
  }

  /** The messages below an element of an array are below the array. */
  lemma {:induction false} ElemInElems(f: Field, j: nat, n: nat)
    requires f.slot.Many? && j < n <= |f.slot.arr.elems|
    ensures ValueSubtree(f.slot.arr.elems[j]) <= ElemsSubtree(f, n)
    decreases n
  {
    if j < n - 1 {
      ElemInElems(f, j, n - 1);
    }
  }

  lemma SingleSubtree(f: Field)
    requires f.slot.Single? && f.kind.Sub? && f.slot.v.Ref?
    ensures FieldSubtree(f) == {f.slot.v.m} + FieldsSubtree(f.slot.v.m, |f.slot.v.m.fields|)
  {
    assert FieldSubtree(f) == ValueSubtree(f.slot.v) == Subtree(f.slot.v.m);
  }

  lemma ArraySubtree(f: Field)
    requires f.slot.Many? && !f.kind.Str?
    ensures FieldSubtree(f) == ElemsSubtree(f, |f.slot.arr.elems|)
  {
  }

  lemma ElemsSubtreeStep(f: Field, n: nat, x: Msg)
    requires f.slot.Many? && 0 < n <= |f.slot.arr.elems| && f.slot.arr.elems[n - 1] == Ref(x)
    ensures ElemsSubtree(f, n) == ElemsSubtree(f, n - 1) + ({x} + FieldsSubtree(x, |x.fields|))
  {
    assert ValueSubtree(f.slot.arr.elems[n - 1]) == Subtree(x);
  }

  // ---------------------------------------------------------------------
  // What it means for the walk to have registered something.

  /** `x` itself is one of the values of some bucket. */
  ghost predicate Appears(t: Table, x: Msg) {
    exists i, j :: 0 <= i < |t| && 0 <= j < |t[i].values| && t[i].values[j] == Ref(x)
  }

  /** The bucket of kind `k` holds a message value with identity `id`. */
  ghost predicate HasValue(t: Table, k: Kind, id: nat) {
    var i := FindKey(t, TypeKey(k));
    i >= 0 && exists j :: 0 <= j < |t[i].values| && t[i].values[j].Ref? && t[i].values[j].m.id == id
  }

  /** The bucket of kind `k` holds an array record for the array with identity `id`. */
  ghost predicate HasArray(t: Table, k: Kind, id: nat) {
    var i := FindKey(t, TypeKey(k));
    i >= 0 && exists r :: 0 <= r < |t[i].arrays| && t[i].arrays[r].ptr.id == id
  }

  /** The scan the emission performs for field `f` will succeed. */
  ghost predicate FieldDone(t: Table, f: Field) {
    match f.slot
    case Unset => true
    case Many(arr) => f.kind.Str? || HasArray(t, f.kind, arr.id)
    case Single(v) => !(f.kind.Sub? && v.Ref?) || HasValue(t, f.kind, v.m.id)
  }

  ghost predicate MsgDone(t: Table, m: Msg) {
    forall j :: 0 <= j < |m.fields| ==> FieldDone(t, m.fields[j])
  }

  /** Every message of `s` is in a bucket and all its scans succeed. */
  ghost predicate Done(t: Table, s: set<Msg>) {
    forall y :: y in s ==> Appears(t, y) && MsgDone(t, y)
  }

  // ---------------------------------------------------------------------
  // Registration survives an extension.

  lemma ExtendsAppears(t: Table, u: Table, x: Msg)
    requires Extends(t, u) && Appears(t, x)
    ensures Appears(u, x)
  {
    var i, j :| 0 <= i < |t| && 0 <= j < |t[i].values| && t[i].values[j] == Ref(x);
    assert u[i].values[j] == Ref(x);
  }

  lemma ExtendsFieldDone(t: Table, u: Table, f: Field)
    requires Extends(t, u) && FieldDone(t, f)
    ensures FieldDone(u, f)
  {
    match f.slot {
      case Unset =>
      case Many(arr) =>
        if !f.kind.Str? {
          var i := FindKey(t, TypeKey(f.kind));
          ExtendsFindKey(t, u, TypeKey(f.kind));
          var r :| 0 <= r < |t[i].arrays| && t[i].arrays[r].ptr.id == arr.id;
          assert u[i].arrays[r] == t[i].arrays[r];
        }
      case Single(v) =>
        if f.kind.Sub? && v.Ref? {
          var i := FindKey(t, TypeKey(f.kind));
          ExtendsFindKey(t, u, TypeKey(f.kind));
          var j :| 0 <= j < |t[i].values| && t[i].values[j].Ref? && t[i].values[j].m.id == v.m.id;
          assert u[i].values[j] == t[i].values[j];
        }
    }
  }

  lemma ExtendsMsgDone(t: Table, u: Table, m: Msg)
    requires Extends(t, u) && MsgDone(t, m)
    ensures MsgDone(u, m)
  {
    forall j | 0 <= j < |m.fields| ensures FieldDone(u, m.fields[j]) {
      ExtendsFieldDone(t, u, m.fields[j]);
    }
  }

  lemma ExtendsDone(t: Table, u: Table, s: set<Msg>)
    requires Extends(t, u) && Done(t, s)
    ensures Done(u, s)
  {
    forall y | y in s ensures Appears(u, y) && MsgDone(u, y) {
      ExtendsAppears(t, u, y);
      ExtendsMsgDone(t, u, y);
    }
  }

  lemma DoneAdd(t: Table, x: Msg, s: set<Msg>)
    requires Appears(t, x) && MsgDone(t, x) && Done(t, s)
    ensures Done(t, {x} + s)
  {
  }

  lemma DoneUnion(t: Table, a: set<Msg>, b: set<Msg>)
    requires Done(t, a) && Done(t, b)
    ensures Done(t, a + b)
  {
  }

  // ---------------------------------------------------------------------
  // The pushes register what they push.

  /** A pushed submessage appears, and its bucket holds its identity. */
  lemma PushRegisters(t: Table, k: Kind, x: Msg)
    ensures Appears(WithValue(t, k, Ref(x)), x)
    ensures HasValue(WithValue(t, k, Ref(x)), k, x.id)
  {
    AddValueAppends(t, k, Ref(x));
    RegisteredHasKey(t, k);
    var w := WithValue(t, k, Ref(x));
    var i := BucketIndex(t, k);
    var u := Registered(t, k);
    var j := |u[i].values|;
    assert w[i].values[j] == Ref(x);
    SameIndex(u, w, TypeKey(k), i);
  }

  /** After an array's record and its elements are pushed, the record can be
      found in the bucket, and every message element appears. */
  lemma ArrayRegisters(t: Table, k: Kind, arr: ArrRef)
    ensures var w := WithValues(WithArray(t, k, arr), k, arr.elems, |arr.elems|);
      && HasArray(w, k, arr.id)
      && forall j :: 0 <= j < |arr.elems| && arr.elems[j].Ref? ==> Appears(w, arr.elems[j].m)
  {
    var u := Registered(t, k);
    var i := BucketIndex(t, k);
    var a := WithArray(t, k, arr);
    WithArrayAt(t, k, arr);
    WithValuesShape(a, k, arr.elems, |arr.elems|);
    var w := WithValues(a, k, arr.elems, |arr.elems|);
    assert arr.elems[..|arr.elems|] == arr.elems;
    SameIndex(a, w, TypeKey(k), i);
    var r := |u[i].arrays|;
    assert w[i].arrays[r].ptr == arr;
    forall j | 0 <= j < |arr.elems| && arr.elems[j].Ref? ensures Appears(w, arr.elems[j].m) {
      assert w[i].values[|u[i].values| + j] == arr.elems[j];
    }
  }

  // ---------------------------------------------------------------------
  // The walk registers everything it reaches.

  /** The second pass over an array: once the elements appear, the walk of
      each registers everything below it. */
  lemma {:induction false} DescendedDone(t: Table, f: Field, n: nat)
    requires f.slot.Many? && n <= |f.slot.arr.elems|
    requires Registry(t)
    requires forall j :: 0 <= j < n && f.slot.arr.elems[j].Ref? ==> Appears(t, f.slot.arr.elems[j].m)
    ensures Done(Descended(t, f, n), ElemsSubtree(f, n))
    decreases f, n, 1
  {
    if n > 0 {
      var e := f.slot.arr.elems[n - 1];
      DescendedKeeps(t, f, n - 1);
      if e.Ref? {
        ExtendsAppears(t, Descended(t, f, n - 1), e.m);
      }
      DescendedDone(t, f, n - 1);
      if e.Ref? {
        DescendRef(Descended(t, f, n - 1), f, n, e.m);
      }
    }
  }

  /** One message element of the second pass: its walk keeps what the
      elements before it registered and registers its own subtree. */
  lemma {:induction false} DescendRef(t: Table, f: Field, n: nat, x: Msg)
    requires f.slot.Many? && 0 < n <= |f.slot.arr.elems| && f.slot.arr.elems[n - 1] == Ref(x)
    requires Registry(t) && Appears(t, x) && Done(t, ElemsSubtree(f, n - 1))
    ensures Done(WalkedMsg(t, x), ElemsSubtree(f, n))
    decreases f, n, 0
  {
    WalkedMsgDone(t, x);
    DescendStep(t, x, ElemsSubtree(f, n - 1));
    ElemsSubtreeStep(f, n, x);
  }

  /** The walk of a message that already appears keeps what was registered
      before, so with its own subtree everything is registered. */
  lemma DescendStep(t: Table, x: Msg, prev: set<Msg>)
    requires Registry(t) && Appears(t, x) && Done(t, prev)
    requires MsgDone(WalkedMsg(t, x), x) && Done(WalkedMsg(t, x), FieldsSubtree(x, |x.fields|))
    ensures Done(WalkedMsg(t, x), prev + ({x} + FieldsSubtree(x, |x.fields|)))
  {
    var w := WalkedMsg(t, x);
    WalkedMsgKeeps(t, x);
    ExtendsAppears(t, w, x);
    ExtendsDone(t, w, prev);
    DoneAdd(w, x, FieldsSubtree(x, |x.fields|));
    DoneUnion(w, prev, {x} + FieldsSubtree(x, |x.fields|));
  }

  lemma {:induction false} WalkedDone(t: Table, f: Field)
    requires Registry(t)
    ensures FieldDone(Walked(t, f), f) && Done(Walked(t, f), FieldSubtree(f))
    decreases f
  {
    match f.slot {
      case Unset =>
      case Many(arr) =>
        if !f.kind.Str? {
          ArrayWalkDone(t, f);
        }
      case Single(v) =>
        if f.kind.Sub? && v.Ref? {
          SingleWalkDone(t, f);
        }
    }
  }

  /** A set non-string array: its record, then its elements, then the walk
      of each element. */
  lemma {:induction false} ArrayWalkDone(t: Table, f: Field)
    requires Registry(t) && f.slot.Many? && !f.kind.Str?
    ensures FieldDone(Walked(t, f), f) && Done(Walked(t, f), FieldSubtree(f))
    decreases f, |f.slot.arr.elems| + 1
  {
    var arr := f.slot.arr;
    var w := WithValues(WithArray(t, f.kind, arr), f.kind, arr.elems, |arr.elems|);
    var d := Descended(w, f, |arr.elems|);
    assert Walked(t, f) == d;
    ArraySubtree(f);
    ArrayRegisters(t, f.kind, arr);
    ArrayStepKeeps(t, f.kind, arr);
    DescendedDone(w, f, |arr.elems|);
    DescendedKeeps(w, f, |arr.elems|);
    ExtendsFieldDone(w, d, f);
  }

  /** A set singular submessage: pushed, then walked. */
  lemma {:induction false} SingleWalkDone(t: Table, f: Field)
    requires Registry(t) && f.slot.Single? && f.kind.Sub? && f.slot.v.Ref?
    ensures FieldDone(Walked(t, f), f) && Done(Walked(t, f), FieldSubtree(f))
    decreases f, 0
  {
    var v := f.slot.v;
    var u := WithValue(t, f.kind, v);
    var w := WalkedMsg(u, v.m);
    assert Walked(t, f) == w;
    PushRegisters(t, f.kind, v.m);
    WithValueKeeps(t, f.kind, v);
    WalkedMsgDone(u, v.m);
    WalkedMsgKeeps(u, v.m);
    ExtendsAppears(u, w, v.m);
    ExtendsFieldDone(u, w, f);
    DoneAdd(w, v.m, FieldsSubtree(v.m, |v.m.fields|));
    SingleSubtree(f);
  }

  lemma {:induction false} WalkedFieldsDone(t: Table, m: Msg, n: nat)
    requires n <= |m.fields| && Registry(t)
    ensures forall j :: 0 <= j < n ==> FieldDone(WalkedFields(t, m, n), m.fields[j])
    ensures Done(WalkedFields(t, m, n), FieldsSubtree(m, n))
    decreases m, n
  {
    if n > 0 {
      WalkedFieldsDone(t, m, n - 1);
      var t' := WalkedFields(t, m, n - 1);
      var w := WalkedFields(t, m, n);
      WalkedFieldsKeeps(t, m, n - 1);
      WalkedDone(t', m.fields[n - 1]);
      WalkedKeeps(t', m.fields[n - 1]);
      ExtendsDone(t', w, FieldsSubtree(m, n - 1));
      DoneUnion(w, FieldsSubtree(m, n - 1), FieldSubtree(m.fields[n - 1]));
      forall j | 0 <= j < n - 1 ensures FieldDone(w, m.fields[j]) {
        ExtendsFieldDone(t', w, m.fields[j]);
      }
    }
  }

  /** `add_submsgs` on `m`: every field scan of `m` succeeds afterwards, and
      every message below `m` is in a bucket with all its scans succeeding. */
  lemma WalkedMsgDone(t: Table, m: Msg)
    requires Registry(t)
    ensures MsgDone(WalkedMsg(t, m), m) && Done(WalkedMsg(t, m), FieldsSubtree(m, |m.fields|))
    decreases m
  {
    WalkedFieldsDone(t, m, |m.fields|);
  }

  /** After the walk from the root, every message of the root's subtree,
      the root included, is in a bucket and every identity scan the emission
      performs for it finds its target. */
  lemma RootDone(root: Msg)
    ensures Done(RootWalk(root), Subtree(root))
  {
    var t0 := WithValue([], RootKind(root), Ref(root));
    var w := RootWalk(root);
    RootStart(root);
    PushRegisters([], RootKind(root), root);
    WalkedMsgDone(t0, root);
    WalkedMsgKeeps(t0, root);
    ExtendsAppears(t0, w, root);
    DoneAdd(w, root, FieldsSubtree(root, |root.fields|));
  }

  // ---------------------------------------------------------------------
  // The buckets hold only what the walk reaches.

  /** A value fits a bucket when it is a message exactly when the bucket is
      a message type's, and a message value lies in `s`. */
  ghost predicate ValueWithin(k: Kind, v: Value, s: set<Msg>) {
    (k.Sub? <==> v.Ref?) && (v.Ref? ==> v.m in s)
  }

  ghost predicate Within(t: Table, s: set<Msg>, ks: set<Kind>) {
    forall i :: 0 <= i < |t| ==>
      t[i].kind in ks && forall j :: 0 <= j < |t[i].values| ==> ValueWithin(t[i].kind, t[i].values[j], s)
  }

  /** No C type name of a scalar or string field is also the full name of a
      message type: buckets are keyed by name alone, so such a clash would
      put scalars and messages in one bucket. */
  predicate NamesApart(ks: set<Kind>) {
    forall k1, k2 :: k1 in ks && k2 in ks && TypeKey(k1) == TypeKey(k2) ==> (k1.Sub? <==> k2.Sub?)
  }

  /** Every message of `s` conforms, and its fields' kinds are in `ks`. */
  ghost predicate Closed(s: set<Msg>, ks: set<Kind>) {
    forall x :: x in s ==> LocallyConforms(x) && forall j :: 0 <= j < |x.fields| ==> x.fields[j].kind in ks
  }

  /** The kinds the walk from `root` can push with. */
  ghost function KindsOf(root: Msg): set<Kind> {
    {RootKind(root)} + set x, j | x in Subtree(root) && 0 <= j < |x.fields| :: x.fields[j].kind
  }

  /** Every bucket is named after its kind. */
  ghost predicate Keyed(t: Table) {
    forall i :: 0 <= i < |t| ==> t[i].key == TypeKey(t[i].kind)
  }

  lemma RegisteredWithin(t: Table, k: Kind, s: set<Msg>, ks: set<Kind>)
    requires Keyed(t) && Within(t, s, ks) && NamesApart(ks) && k in ks
    ensures Within(Registered(t, k), s, ks) && Keyed(Registered(t, k))
    ensures var u := Registered(t, k); var i := BucketIndex(t, k);
      i < |u| && (u[i].kind.Sub? <==> k.Sub?)
  {
    RegisteredHasKey(t, k);
    var i := BucketIndex(t, k);
    if HasKey(t, TypeKey(k)) {
      assert t[i].key == TypeKey(t[i].kind);
    } else {
      GetOrInsertIdempotent(t, k);
      assert Registered(t, k)[|t|] == NewBucket(k);
    }
  }

  lemma WithValueWithin(t: Table, k: Kind, v: Value, s: set<Msg>, ks: set<Kind>)
    requires Keyed(t) && Within(t, s, ks) && NamesApart(ks) && k in ks && ValueWithin(k, v, s)
    ensures Within(WithValue(t, k, v), s, ks) && Keyed(WithValue(t, k, v))
  {
    RegisteredWithin(t, k, s, ks);
    RegisteredHasKey(t, k);
    var u := Registered(t, k);
    var i := BucketIndex(t, k);
    var w := WithValue(t, k, v);
    assert ValueWithin(u[i].kind, v, s);
    forall q | 0 <= q < |w| ensures w[q].kind in ks &&
      forall j :: 0 <= j < |w[q].values| ==> ValueWithin(w[q].kind, w[q].values[j], s)
    {
      if q == i {
        assert w[q].values == u[q].values + [v];
      }
    }
  }

  lemma WithArrayWithin(t: Table, k: Kind, arr: ArrRef, s: set<Msg>, ks: set<Kind>)
    requires Keyed(t) && Within(t, s, ks) && NamesApart(ks) && k in ks
    ensures Within(WithArray(t, k, arr), s, ks) && Keyed(WithArray(t, k, arr))
  {
    RegisteredWithin(t, k, s, ks);
    RegisteredHasKey(t, k);
  }

  lemma {:induction false} WithValuesWithin(t: Table, k: Kind, elems: seq<Value>, n: nat, s: set<Msg>, ks: set<Kind>)
    requires n <= |elems|
    requires Keyed(t) && Within(t, s, ks) && NamesApart(ks) && k in ks
    requires forall j :: 0 <= j < n ==> ValueWithin(k, elems[j], s)
    ensures Within(WithValues(t, k, elems, n), s, ks) && Keyed(WithValues(t, k, elems, n))
  {
    if n > 0 {
      WithValuesWithin(t, k, elems, n - 1, s, ks);
      var t' := WithValues(t, k, elems, n - 1);
      WithValueWithin(t', k, elems[n - 1], s, ks);
    }
  }

  lemma RegistryKeyed(t: Table)
    requires Registry(t)
    ensures Keyed(t)
  {
    assert forall i :: 0 <= i < |t| ==> BucketValid(t[i]);
  }

  /** An element of a conforming array fits the array's kind. */
  lemma ElemWithin(f: Field, j: nat, s: set<Msg>)
    requires f.slot.Many? && !f.kind.Str? && j < |f.slot.arr.elems|
    requires FieldConforms(f) && FieldSubtree(f) <= s
    ensures ValueWithin(f.kind, f.slot.arr.elems[j], s)
  {
    var e := f.slot.arr.elems[j];
    assert ValueFits(f.kind, e);
    ElemInElems(f, j, |f.slot.arr.elems|);
    ArraySubtree(f);
    if e.Ref? {
      assert ValueSubtree(e) == Subtree(e.m);
    }
  }

  lemma {:induction false} DescendedWithin(t: Table, f: Field, n: nat, s: set<Msg>, ks: set<Kind>)
    requires f.slot.Many? && !f.kind.Str? && n <= |f.slot.arr.elems|
    requires Registry(t) && Within(t, s, ks) && NamesApart(ks) && Closed(s, ks)
    requires FieldSubtree(f) <= s
    ensures Within(Descended(t, f, n), s, ks)
    decreases f, n
  {
    if n > 0 {
      DescendedWithin(t, f, n - 1, s, ks);
      var t' := Descended(t, f, n - 1);
      DescendedKeeps(t, f, n - 1);
      match f.slot.arr.elems[n - 1] {
        case Ref(x) =>
          ElemInElems(f, n - 1, |f.slot.arr.elems|);
          ArraySubtree(f);
          assert ValueSubtree(f.slot.arr.elems[n - 1]) == Subtree(x);
          WalkedMsgWithin(t', x, s, ks);
        case _ =>
      }
    }
  }

  lemma {:induction false} WalkedWithin(t: Table, f: Field, s: set<Msg>, ks: set<Kind>)
    requires Registry(t) && Within(t, s, ks) && NamesApart(ks) && Closed(s, ks)
    requires FieldConforms(f) && f.kind in ks && FieldSubtree(f) <= s
    ensures Within(Walked(t, f), s, ks)
    decreases f
  {
    match f.slot {
      case Unset =>
      case Many(arr) =>
        if !f.kind.Str? {
          ArrayWalkWithin(t, f, s, ks);
        }
      case Single(v) =>
        if f.kind.Sub? && v.Ref? {
          var u := WithValue(t, f.kind, v);
          SingleSubtree(f);
          assert Walked(t, f) == WalkedMsg(u, v.m);
          RegistryKeyed(t);
          WithValueWithin(t, f.kind, v, s, ks);
          WithValueKeeps(t, f.kind, v);
          WalkedMsgWithin(u, v.m, s, ks);
        }
    }
  }

  lemma {:induction false} ArrayWalkWithin(t: Table, f: Field, s: set<Msg>, ks: set<Kind>)
    requires Registry(t) && Within(t, s, ks) && NamesApart(ks) && Closed(s, ks)
    requires f.slot.Many? && !f.kind.Str?
    requires FieldConforms(f) && f.kind in ks && FieldSubtree(f) <= s
    ensures Within(Walked(t, f), s, ks)
    decreases f, |f.slot.arr.elems| + 1
  {
    var arr := f.slot.arr;
    var a := WithArray(t, f.kind, arr);
    var w := WithValues(a, f.kind, arr.elems, |arr.elems|);
    assert Walked(t, f) == Descended(w, f, |arr.elems|);
    RegistryKeyed(t);
    WithArrayWithin(t, f.kind, arr, s, ks);
    ArrayStepKeeps(t, f.kind, arr);
    forall j | 0 <= j < |arr.elems| ensures ValueWithin(f.kind, arr.elems[j], s) {
      ElemWithin(f, j, s);
    }
    WithValuesWithin(a, f.kind, arr.elems, |arr.elems|, s, ks);
    DescendedWithin(w, f, |arr.elems|, s, ks);
  }

  /** `add_submsgs` on a conforming message keeps every bucket within `s`. */
  lemma {:induction false} WalkedFieldsWithin(t: Table, m: Msg, n: nat, s: set<Msg>, ks: set<Kind>)
    requires n <= |m.fields|
    requires Registry(t) && Within(t, s, ks) && NamesApart(ks) && Closed(s, ks)
    requires Subtree(m) <= s
    ensures Within(WalkedFields(t, m, n), s, ks)
    decreases m, n
  {
    if n > 0 {
      WalkedFieldsWithin(t, m, n - 1, s, ks);
      var t' := WalkedFields(t, m, n - 1);
      WalkedFieldsKeeps(t, m, n - 1);
      assert m in Subtree(m);
      FieldInSubtree(m, n - 1);
      WalkedWithin(t', m.fields[n - 1], s, ks);
    }
  }

  lemma WalkedMsgWithin(t: Table, m: Msg, s: set<Msg>, ks: set<Kind>)
    requires Registry(t) && Within(t, s, ks) && NamesApart(ks) && Closed(s, ks)
    requires Subtree(m) <= s
    ensures Within(WalkedMsg(t, m), s, ks)
    decreases m
  {
    WalkedFieldsWithin(t, m, |m.fields|, s, ks);
  }

  /** On a conforming instance whose type names are apart, the buckets the
      walk builds hold the messages of the root's subtree in the message
      buckets and non-messages in the others. */
  lemma RootWithin(root: Msg)
    requires Conforms(root) && NamesApart(KindsOf(root))
    ensures Within(RootWalk(root), Subtree(root), KindsOf(root))
  {
    var s := Subtree(root);
    var ks := KindsOf(root);
    assert Closed(s, ks) by {
      forall x, j | x in s && 0 <= j < |x.fields| ensures x.fields[j].kind in ks {
      }
    }
    RootStart(root);
    var t0 := WithValue([], RootKind(root), Ref(root));
    assert root in s;
    WithValueWithin([], RootKind(root), Ref(root), s, ks);
    WalkedMsgWithin(t0, root, s, ks);
  }

  // ---------------------------------------------------------------------
  // The interner covers every string the emission looks up.

  lemma {:induction false} FieldOf(m: Msg, n: nat, y: Msg) returns (j: nat)
    requires n <= |m.fields| && y in FieldsSubtree(m, n)
    ensures j < n && y in FieldSubtree(m.fields[j])
    decreases n
  {
    if y in FieldSubtree(m.fields[n - 1]) {
      j := n - 1;
    } else {
      j := FieldOf(m, n - 1, y);
    }
  }

  lemma {:induction false} ElemOf(f: Field, n: nat, y: Msg) returns (q: nat)
    requires f.slot.Many? && n <= |f.slot.arr.elems| && y in ElemsSubtree(f, n)
    ensures q < n && y in ValueSubtree(f.slot.arr.elems[q])
    decreases n
  {
    if y in ValueSubtree(f.slot.arr.elems[n - 1]) {
      q := n - 1;
    } else {
      q := ElemOf(f, n - 1, y);
    }
  }

  lemma {:induction false} FieldStringsIn(m: Msg, j: nat, n: nat)
    requires j < n <= |m.fields|
    ensures FieldStrings(m.fields[j]) <= FieldsStrings(m, n)
    decreases n
  {
    if j < n - 1 {
      FieldStringsIn(m, j, n - 1);
    }
  }

  lemma {:induction false} ElemStringsIn(f: Field, q: nat, n: nat)
    requires f.slot.Many? && q < n <= |f.slot.arr.elems|
    ensures ValueStrings(f.kind, f.slot.arr.elems[q]) <= ElemsStrings(f, n)
    decreases n
  {
    if q < n - 1 {
      ElemStringsIn(f, q, n - 1);
    }
  }

  /** On a conforming instance, the strings below a message of the subtree
      are strings of the root: the interner, which follows submessage fields
      only, misses nothing the walk reaches. */
  lemma {:induction false} StringsBelow(m: Msg, y: Msg)
    requires Conforms(m) && y in Subtree(m)
    ensures MsgStrings(y) <= MsgStrings(m)
    decreases m
  {
    if y != m {
      assert y in FieldsSubtree(m, |m.fields|);
      var j := FieldOf(m, |m.fields|, y);
      var f := m.fields[j];
      FieldInSubtree(m, j);
      FieldStringsIn(m, j, |m.fields|);
      assert m in Subtree(m);
      assert FieldConforms(f);
      match f.slot {
        case Single(v) =>
          SingleSubtree(f);
          assert Subtree(v.m) == {v.m} + FieldsSubtree(v.m, |v.m.fields|);
          StringsBelow(v.m, y);
        case Many(arr) =>
          ArraySubtree(f);
          var q := ElemOf(f, |arr.elems|, y);
          var e := arr.elems[q];
          ElemInElems(f, q, |arr.elems|);
          ElemStringsIn(f, q, |arr.elems|);
          assert ValueFits(f.kind, e);
          assert ValueSubtree(e) == Subtree(e.m);
          StringsBelow(e.m, y);
      }
    }
  }

  /** Every string held by a singular string field of a message in the
      subtree is among the strings the interner collects. */
  lemma StringCovered(root: Msg, x: Msg, j: nat)
    requires Conforms(root) && x in Subtree(root) && j < |x.fields|
    requires x.fields[j].kind.Str? && x.fields[j].slot.Single?
    ensures x.fields[j].slot.v.Text? && x.fields[j].slot.v.s in MsgStrings(root)
  {
    assert FieldConforms(x.fields[j]);
    StringsBelow(root, x);
    FieldStringsIn(x, j, |x.fields|);
  }
}
