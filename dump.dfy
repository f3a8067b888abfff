/** `write_message_c`, the data dump as a whole: the interned and sorted
    string pool, the type buckets the walk fills from the root, the emitted
    tables and the root reference; and what is proved about the result on a
    conforming instance. */
module Dump {
  import opened Common
  import opened Instance
  import Names
  import opened Strings
  import opened Types
  import opened WalkFacts
  import opened Reach
  import opened Emit

  /** The contents of the pool entries, in pool order. */
  function Contents(pool: seq<PoolEntry>): seq<string> {
    seq(|pool|, i requires 0 <= i < |pool| => pool[i].content)
  }

  /** The string section of the dump: every string of the message is
      interned once, the entries are sorted, and the pool is laid out in
      that order. */
  method BuildPool(root: Msg) returns (pool: seq<PoolEntry>, strdata: string)
    ensures PoolLayout(Contents(pool), pool, strdata)
    ensures Elems(Contents(pool)) == MsgStrings(root)
    ensures forall i, j :: 0 <= i < j < |pool| ==> StrCmp(pool[i].content, pool[j].content) < 0
  {
    var st := new StrTable();
    st.AddStringsFromMsg(root);
    var entries := st.ToArray();
    assert Elems([]) == {};
    var sorted := SortEntries(entries);
    SortedPoolDeterministic(entries, entries);
    MultisetElems(sorted, entries);
    pool, strdata := AssignOffsets(sorted);
    assert Contents(pool) == sorted;
  }

  /** `write_message_c` without its output: the string pool, then the type
      buckets filled from the root, every type written, and the root named
      by the identifier of its type's bucket. */
  method WriteMessage(root: Msg) returns (pool: seq<PoolEntry>, strdata: string, r: Result<DataDump, Fault>)
    ensures PoolLayout(Contents(pool), pool, strdata)
    ensures Elems(Contents(pool)) == MsgStrings(root)
    ensures forall i, j :: 0 <= i < j < |pool| ==> StrCmp(pool[i].content, pool[j].content) < 0
    ensures r == DumpOf(RootWalk(root), pool, root)
  {
    pool, strdata := BuildPool(root);
    var tt := new TypeTable();
    tt.AddRoot(root);
    var types := EmitTables(tt.buckets, pool);
    if types.Err? {
      return pool, strdata, Err(types.fault);
    }
    var i := tt.GetOrInsert(RootKind(root));
    r := Ok(DataDump(types.value, tt.buckets[i].cident, 0));
  }

  // ---------------------------------------------------------------------
  // Resolving the references of the emitted tables.

  /** Element `q` of array header `r` names, through the element table, the
      value that is element `q` of array `r`: the header is as long as the
      array and the elements it spans are the array's, in order. */
  lemma HeaderResolves(b: Bucket, r: nat, q: nat)
    requires RecordsPlaced(b) && r < |b.arrays| && q < |b.arrays[r].ptr.elems|
    ensures var h := Headers(b.arrays)[r];
      && h.len == |b.arrays[r].ptr.elems|
      && h.start + q < |ElemRefs(b.arrays)|
      && ElemRefs(b.arrays)[h.start + q] < |b.values|
      && b.values[ElemRefs(b.arrays)[h.start + q]] == b.arrays[r].ptr.elems[q]
  {
    HeaderAt(b.arrays, r);
    ElemRefAt(b.arrays, r, SumLens(b.arrays[..r]) + q);
    PlacedAt(b, r, q);
  }

  lemma PlacedAt(b: Bucket, r: nat, q: nat)
    requires RecordsPlaced(b) && r < |b.arrays| && q < b.arrays[r].len
    ensures b.arrays[r].len == |b.arrays[r].ptr.elems| && b.arrays[r].offset + q < |b.values|
    ensures b.values[b.arrays[r].offset + q] == b.arrays[r].ptr.elems[q]
  {
  }

  /** A string payload is the number of the pool entry holding the field's
      string. */
  lemma StrPayloadResolves(t: Table, pool: seq<PoolEntry>, f: Field, n: nat)
    requires forall i :: 0 <= i < |pool| ==> pool[i].num == i
    requires PayloadOf(t, pool, f) == Ok(StrRef(n))
    ensures f.kind.Str? && f.slot.Single? && f.slot.v.Text?
    ensures n < |pool| && pool[n].content == f.slot.v.s
  {
  }

  /** An array payload names, in the bucket of the field's type, the first
      array record for the field's array; that bucket's records are placed,
      so by `HeaderResolves` the header spans exactly that array's elements. */
  lemma ArrayPayloadResolves(t: Table, pool: seq<PoolEntry>, f: Field, c: string, r: nat)
    requires Registry(t)
    requires PayloadOf(t, pool, f) == Ok(ArrayRef(c, r))
    ensures f.slot.Many? && !f.kind.Str?
    ensures var i := FindKey(t, TypeKey(f.kind));
      && 0 <= i && c == t[i].cident && r < |t[i].arrays|
      && t[i].arrays[r].ptr.id == f.slot.arr.id
      && RecordsPlaced(t[i])
  {
    ArrayPayloadFound(t, pool, f, c, r);
    RegistryPlaced(t, FindKey(t, TypeKey(f.kind)));
  }

  lemma ArrayPayloadFound(t: Table, pool: seq<PoolEntry>, f: Field, c: string, r: nat)
    requires PayloadOf(t, pool, f) == Ok(ArrayRef(c, r))
    ensures f.slot.Many? && !f.kind.Str?
    ensures var i := FindKey(t, TypeKey(f.kind));
      0 <= i && c == t[i].cident && r < |t[i].arrays| && t[i].arrays[r].ptr.id == f.slot.arr.id
  {
  }

  lemma RegistryPlaced(t: Table, i: int)
    requires Registry(t) && 0 <= i < |t|
    ensures RecordsPlaced(t[i])
  {
    assert BucketValid(t[i]);
  }

  /** A submessage payload names, in the bucket of the field's type, the
      first value that is the field's message. */
  lemma ValuePayloadResolves(t: Table, pool: seq<PoolEntry>, f: Field, c: string, r: nat)
    requires PayloadOf(t, pool, f) == Ok(ValueRef(c, r))
    ensures f.kind.Sub? && f.slot.Single? && f.slot.v.Ref?
    ensures var i := FindKey(t, TypeKey(f.kind));
      && 0 <= i && c == t[i].cident && r < |t[i].values|
      && IsMsg(t[i].values[r], f.slot.v.m.id)
      && forall k :: 0 <= k < r ==> !IsMsg(t[i].values[k], f.slot.v.m.id)
  {
  }

  // ---------------------------------------------------------------------
  // When the dump succeeds.

  /** `x` has a set repeated string field. */
  ghost predicate StringArrayIn(x: Msg) {
    exists j :: 0 <= j < |x.fields| && IsStringArray(x.fields[j])
  }

  /** `e` is the rejection of a set repeated string field of `x`. */
  ghost predicate Rejected(x: Msg, e: Fault) {
    exists j :: 0 <= j < |x.fields| && IsStringArray(x.fields[j]) && e == Unsupported(x.fields[j].name)
  }

  /** Every string of the message is in the pool. */
  ghost predicate Covers(pool: seq<PoolEntry>, root: Msg) {
    MsgStrings(root) <= Elems(Contents(pool))
  }

  /** On a registry where every scan for `x` succeeds, a field's payload is
      written unless the field is a set repeated string field, which is
      rejected by name. */
  lemma PayloadFine(root: Msg, pool: seq<PoolEntry>, t: Table, x: Msg, j: nat)
    requires Conforms(root) && x in Subtree(root) && j < |x.fields|
    requires Covers(pool, root) && MsgDone(t, x)
    ensures var p := PayloadOf(t, pool, x.fields[j]);
      && (p.Ok? <==> !IsStringArray(x.fields[j]))
      && (p.Err? ==> p.fault == Unsupported(x.fields[j].name))
  {
    var f := x.fields[j];
    assert FieldDone(t, f);
    match f.slot {
      case Unset =>
      case Many(arr) =>
        if !f.kind.Str? {
          var i := FindKey(t, TypeKey(f.kind));
          var r :| 0 <= r < |t[i].arrays| && t[i].arrays[r].ptr.id == arr.id;
        }
      case Single(v) =>
        if f.kind.Str? {
          StringCovered(root, x, j);
          assert v.s in Contents(pool);
          var n :| 0 <= n < |pool| && Contents(pool)[n] == v.s;
          assert pool[n].content == v.s;
        } else if f.kind.Sub? {
          assert LocallyConforms(x);
          assert FieldConforms(f);
          var i := FindKey(t, TypeKey(f.kind));
          var r :| 0 <= r < |t[i].values| && t[i].values[r].Ref? && t[i].values[r].m.id == v.m.id;
          assert IsMsg(t[i].values[r], v.m.id);
        }
    }
  }

  /** A row is written unless it is a message with a set repeated string
      field, and then the row fails with that field's rejection. */
  lemma RowFine(root: Msg, pool: seq<PoolEntry>, t: Table, b: Bucket, v: Value)
    requires Conforms(root) && Covers(pool, root) && Done(t, Subtree(root))
    requires ValueWithin(b.kind, v, Subtree(root))
    ensures var r := RowOf(t, pool, b, v);
      && (r.Ok? <==> !(v.Ref? && StringArrayIn(v.m)))
      && (r.Err? ==> v.Ref? && Rejected(v.m, r.fault))
  {
    if b.kind.Sub? {
      var x := v.m;
      var rs := PayloadResults(t, pool, x);
      forall j | 0 <= j < |x.fields|
        ensures (rs[j].Ok? <==> !IsStringArray(x.fields[j]))
        ensures rs[j].Err? ==> rs[j].fault == Unsupported(x.fields[j].name)
      {
        PayloadFine(root, pool, t, x, j);
      }
      CollectOk(rs);
      if Collect(rs).Err? {
        var j := CollectErr(rs);
        assert IsStringArray(x.fields[j]);
      }
    }
  }

  /** A type is written unless one of its values is a message with a set
      repeated string field; it then fails with such a rejection. */
  lemma TypeFine(root: Msg, pool: seq<PoolEntry>, t: Table, b: Bucket)
    requires Conforms(root) && Covers(pool, root) && Done(t, Subtree(root))
    requires forall j :: 0 <= j < |b.values| ==> ValueWithin(b.kind, b.values[j], Subtree(root))
    ensures var d := TypeDataOf(t, pool, b);
      && (d.Ok? <==> forall q :: 0 <= q < |b.values| ==> !(b.values[q].Ref? && StringArrayIn(b.values[q].m)))
      && (d.Err? ==> exists q :: 0 <= q < |b.values| && b.values[q].Ref? && Rejected(b.values[q].m, d.fault))
      && (d.Ok? ==> |d.value.rows| == |b.values|)
  {
    var rs := RowResults(t, pool, b);
    forall q | 0 <= q < |b.values|
      ensures (rs[q].Ok? <==> !(b.values[q].Ref? && StringArrayIn(b.values[q].m)))
      ensures rs[q].Err? ==> b.values[q].Ref? && Rejected(b.values[q].m, rs[q].fault)
    {
      RowFine(root, pool, t, b, b.values[q]);
    }
    CollectOk(rs);
    if Collect(rs).Err? {
      var q := CollectErr(rs);
    }
  }

  /** On the walked registry, each type fails exactly when one of its values
      is a message with a set repeated string field. */
  lemma TablesFine(root: Msg, pool: seq<PoolEntry>)
    requires Conforms(root) && NamesApart(KindsOf(root)) && Covers(pool, root)
    ensures var t := RootWalk(root); var ts := TypeResults(t, pool);
      forall i :: 0 <= i < |t| ==>
        && (ts[i].Ok? <==> forall q :: 0 <= q < |t[i].values| ==> !(t[i].values[q].Ref? && StringArrayIn(t[i].values[q].m)))
        && (ts[i].Err? ==> exists q :: 0 <= q < |t[i].values| && t[i].values[q].Ref? && Rejected(t[i].values[q].m, ts[i].fault))
  {
    var t := RootWalk(root);
    RootDone(root);
    RootWithin(root);
    forall i | 0 <= i < |t|
      ensures forall j :: 0 <= j < |t[i].values| ==> ValueWithin(t[i].kind, t[i].values[j], Subtree(root))
    {
    }
    forall i | 0 <= i < |t| {
      TypeFine(root, pool, t, t[i]);
    }
  }

  lemma RejectedHas(x: Msg, e: Fault)
    requires Rejected(x, e)
    ensures StringArrayIn(x)
  {
  }

  /** The dump fails exactly when a message the walk reaches has a set
      repeated string field, and then with the rejection of such a field,
      never with a failed internal assertion. */
  lemma DumpFails(root: Msg, pool: seq<PoolEntry>)
    requires Conforms(root) && NamesApart(KindsOf(root)) && Covers(pool, root)
    ensures var d := DumpOf(RootWalk(root), pool, root);
      && (d.Ok? <==> forall x :: x in Subtree(root) ==> !StringArrayIn(x))
      && (d.Err? ==> exists x :: x in Subtree(root) && Rejected(x, d.fault))
  {
    var t := RootWalk(root);
    var s := Subtree(root);
    TablesFine(root, pool);
    var ts := TypeResults(t, pool);
    CollectOk(ts);
    if Collect(ts).Ok? {
      RootDone(root);
      forall x | x in s ensures !StringArrayIn(x) {
        assert Appears(t, x);
        var i, q :| 0 <= i < |t| && 0 <= q < |t[i].values| && t[i].values[q] == Ref(x);
        assert ts[i].Ok?;
      }
    } else {
      RootWithin(root);
      var i := CollectErr(ts);
      var q :| 0 <= q < |t[i].values| && t[i].values[q].Ref? && Rejected(t[i].values[q].m, ts[i].fault);
      var x := t[i].values[q].m;
      assert ValueWithin(t[i].kind, t[i].values[q], s);
      RejectedHas(x, ts[i].fault);
      assert x in s && Rejected(x, Collect(ts).fault);
    }
  }

  /** A successful dump names the root as the first value of the root
      type's table, whose identifier is the root's type name converted by
      `to_cident`; that table is the first one written, and its first row
      is the root's own row. */
  lemma DumpRoot(root: Msg, pool: seq<PoolEntry>)
    requires Conforms(root) && NamesApart(KindsOf(root))
    ensures var d := DumpOf(RootWalk(root), pool, root);
      d.Ok? ==>
        && d.value.rootType == Names.CIdent(root.fqname) && d.value.rootIndex == 0
        && |d.value.types| == |RootWalk(root)| && |RootWalk(root)| > 0 && |d.value.types[0].rows| > 0
        && d.value.types[0].cident == d.value.rootType
        && Ok(d.value.types[0].rows[0]) == RowOf(RootWalk(root), pool, RootWalk(root)[0], Ref(root))
        && d.value.types[0].rows[0].MsgRow? && d.value.types[0].rows[0].has == Presence(root)
  {
    var t := RootWalk(root);
    RootAtZero(root);
    var ts := TypeResults(t, pool);
    CollectOk(ts);
    if Collect(ts).Ok? {
      RootWithin(root);
      GetOrInsertIdempotent(t, RootKind(root));
      assert BucketValid(t[0]);
      assert t[0].kind.Sub? by {
        assert ValueWithin(t[0].kind, t[0].values[0], Subtree(root));
      }
      var rows := RowResults(t, pool, t[0]);
      CollectOk(rows);
      assert ts[0].value.rows[0] == rows[0].value;
      assert ts[0].value.cident == t[0].cident;
    }
  }

  /** What the data dump produces on a conforming instance whose type names
      are apart, once every string of the instance is in the pool. */
  lemma DumpTheorem(root: Msg, pool: seq<PoolEntry>)
    requires Conforms(root) && NamesApart(KindsOf(root)) && Covers(pool, root)
    ensures var d := DumpOf(RootWalk(root), pool, root);
      && (d.Ok? <==> forall x :: x in Subtree(root) ==> !StringArrayIn(x))
      && (d.Err? ==> exists x :: x in Subtree(root) && Rejected(x, d.fault))
      && (d.Ok? ==> d.value.rootType == Names.CIdent(root.fqname) && d.value.rootIndex == 0)
  {
    DumpFails(root, pool);
    DumpRoot(root, pool);
  }
}
