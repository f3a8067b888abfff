/** The data the compiler writes for the type buckets, as values instead of C
    text: per type, the element table and the array headers of its arrays
    and one row per value; a message row is its presence bits and one
    payload per field, where references to strings, arrays and submessages
    are resolved to indices. The first failure aborts the dump. */
module Emit {
  import opened Common
  import opened Instance
  import opened Strings
  import opened Types

  /** The initialiser of one field of a message row: `0` for an unset
      field, `&strings[num]`, `&<type>_arrays[index]`, `&<type>_values[index]`,
      or a scalar printed as is. */
  datatype Payload =
    | NotSet
    | StrRef(num: nat)
    | ArrayRef(cident: string, index: nat)
    | ValueRef(cident: string, index: nat)
    | Literal(v: Value)

  /** One entry of `<type>_values`: a message with its `has` bits and its
      field payloads, a scalar, or nothing (the string type's branch is empty). */
  datatype Row = MsgRow(has: seq<bool>, data: seq<Payload>) | ScalarRow(v: Value) | NoRow

  /** One entry of `<type>_arrays`: where its elements start in
      `<type>_array_elems`, and how many there are. */
  datatype Header = Header(start: nat, len: nat)

  /** Everything written for one type: its identifier, the length of its
      value list, the element table (value indices), the array headers and
      the rows. */
  datatype TypeData = TypeData(cident: string, count: nat, elems: seq<nat>, headers: seq<Header>, rows: seq<Row>)

  /** Why a dump stops: a repeated string field, which the compiler rejects,
      or a failed internal assertion. The compiler's message names no field;
      the name in `Unsupported` is the model's addition. */
  datatype Fault = Unsupported(field: string) | InternalFault

  /** The whole dump of the type buckets plus the externally visible
      reference to the root as `<type>_values[rootIndex]`. */
  datatype DataDump = DataDump(types: seq<TypeData>, rootType: string, rootIndex: nat)

  // ---------------------------------------------------------------------
  // Running a sequence of steps that may fail: the first failure wins.

  function Collect<T>(rs: seq<Result<T, Fault>>): Result<seq<T>, Fault>
  {
    if rs == [] then Ok([])
    else
      match Collect(rs[..|rs| - 1])
      case Err(e) => Err(e)
      case Ok(vs) =>
        match rs[|rs| - 1]
        case Err(e) => Err(e)
        case Ok(v) => Ok(vs + [v])
  }

  /** All steps succeed exactly when the collection does, and then it holds
      every step's result in order. */
  lemma {:induction false} CollectOk<T>(rs: seq<Result<T, Fault>>)
    ensures Collect(rs).Ok? <==> forall j :: 0 <= j < |rs| ==> rs[j].Ok?
    ensures Collect(rs).Ok? ==>
      |Collect(rs).value| == |rs| && forall j :: 0 <= j < |rs| ==> Collect(rs).value[j] == rs[j].value
  {
    if rs != [] {
      var p := rs[..|rs| - 1];
      CollectOk(p);
      assert forall j :: 0 <= j < |p| ==> p[j] == rs[j];
    }
  }

  /** A failed collection fails with the fault of its first failing step. */
  lemma {:induction false} CollectErr<T>(rs: seq<Result<T, Fault>>) returns (j: nat)
    requires Collect(rs).Err?
    ensures j < |rs| && rs[j] == Err(Collect(rs).fault)
    ensures forall q :: 0 <= q < j ==> rs[q].Ok?
  {
    var p := rs[..|rs| - 1];
    if Collect(p).Err? {
      j := CollectErr(p);
    } else {
      CollectOk(p);
      j := |rs| - 1;
    }
  }

  lemma CollectNext<T>(rs: seq<Result<T, Fault>>, n: nat)
    requires n < |rs|
    ensures Collect(rs[..n + 1]) ==
      if Collect(rs[..n]).Err? then Collect(rs[..n])
      else if rs[n].Err? then Err(rs[n].fault)
      else Ok(Collect(rs[..n]).value + [rs[n].value])
  {
    assert rs[..n + 1][..n] == rs[..n];
  }

  /** Once a prefix failed, the whole collection fails the same way. */
  lemma {:induction false} CollectSticks<T>(rs: seq<Result<T, Fault>>, n: nat)
    requires n <= |rs| && Collect(rs[..n]).Err?
    ensures Collect(rs) == Collect(rs[..n])
    decreases |rs| - n
  {
    if n < |rs| {
      CollectNext(rs, n);
      CollectSticks(rs, n + 1);
    } else {
      assert rs[..n] == rs;
    }
  }

  // ---------------------------------------------------------------------
  // The identity scans of the emission.

  /** The scan of `arrays` for the array with identity `id`: its first
      record, or -1. */
  function FirstArray(arrays: seq<ArrayRec>, id: nat): (r: int)
    ensures -1 <= r < |arrays|
    ensures r >= 0 ==> arrays[r].ptr.id == id && forall k :: 0 <= k < r ==> arrays[k].ptr.id != id
    ensures r < 0 <==> forall k :: 0 <= k < |arrays| ==> arrays[k].ptr.id != id
  {
    if arrays == [] then -1
    else if arrays[0].ptr.id == id then 0
    else
      var r := FirstArray(arrays[1..], id);
      if r < 0 then -1 else r + 1
  }

  predicate IsMsg(v: Value, id: nat) {
    v.Ref? && v.m.id == id
  }

  /** The scan of `values` for the message with identity `id`: its first
      index, or -1. */
  function FirstValue(values: seq<Value>, id: nat): (r: int)
    ensures -1 <= r < |values|
    ensures r >= 0 ==> IsMsg(values[r], id) && forall k :: 0 <= k < r ==> !IsMsg(values[k], id)
    ensures r < 0 <==> forall k :: 0 <= k < |values| ==> !IsMsg(values[k], id)
  {
    if values == [] then -1
    else if IsMsg(values[0], id) then 0
    else
      var r := FirstValue(values[1..], id);
      if r < 0 then -1 else r + 1
  }

  /** The loop over `arrays` that stops at the first matching record. */
  method ScanArrays(arrays: seq<ArrayRec>, id: nat) returns (r: int)
    ensures r == FirstArray(arrays, id)
  {
    r := -1;
    var k := 0;
    while k < |arrays|
      invariant 0 <= k <= |arrays|
      invariant forall q :: 0 <= q < k ==> arrays[q].ptr.id != id
    {
      if arrays[k].ptr.id == id {
        r := k;
        break;
      }
      k := k + 1;
    }
  }

  /** The loop over `values` that stops at the first matching message. */
  method ScanValues(values: seq<Value>, id: nat) returns (r: int)
    ensures r == FirstValue(values, id)
  {
    r := -1;
    var k := 0;
    while k < |values|
      invariant 0 <= k <= |values|
      invariant forall q :: 0 <= q < k ==> !IsMsg(values[q], id)
    {
      if values[k].Ref? && values[k].m.id == id {
        r := k;
        break;
      }
      k := k + 1;
    }
  }

  // ---------------------------------------------------------------------
  // Element tables and array headers.

  /** The number of elements of all arrays together. */
  function SumLens(arrays: seq<ArrayRec>): nat {
    if arrays == [] then 0 else SumLens(arrays[..|arrays| - 1]) + arrays[|arrays| - 1].len
  }

  /** The entries one array contributes to `<type>_array_elems`: the value
      indices `offset + j` of its elements. */
  function ArrayElemRefs(a: ArrayRec): seq<nat> {
    seq(a.len, j requires 0 <= j < a.len => a.offset + j)
  }

  /** `<type>_array_elems`: the entries of each array in order. */
  function ElemRefs(arrays: seq<ArrayRec>): (r: seq<nat>)
    ensures |r| == SumLens(arrays)
  {
    if arrays == [] then []
    else ElemRefs(arrays[..|arrays| - 1]) + ArrayElemRefs(arrays[|arrays| - 1])
  }

  /** `<type>_arrays`: each header starts where the elements of the arrays
      before it end. */
  function Headers(arrays: seq<ArrayRec>): (r: seq<Header>)
    ensures |r| == |arrays|
  {
    if arrays == [] then []
    else
      var p := arrays[..|arrays| - 1];
      Headers(p) + [Header(SumLens(p), arrays[|arrays| - 1].len)]
  }

  lemma PrefixOfPrefix<T>(s: seq<T>, i: nat)
    requires i < |s|
    ensures s[..i + 1][..i] == s[..i] && s[..i + 1][i] == s[i]
  {
  }

  lemma {:induction false} ElemRefAt(arrays: seq<ArrayRec>, i: int, k: int)
    requires 0 <= i < |arrays| && SumLens(arrays[..i]) <= k < SumLens(arrays[..i]) + arrays[i].len
    ensures k < |ElemRefs(arrays)| && ElemRefs(arrays)[k] == arrays[i].offset + (k - SumLens(arrays[..i]))
  {
    var n := |arrays| - 1;
    var p := arrays[..n];
    if i < n {
      assert p[..i] == arrays[..i] && p[i] == arrays[i];
      ElemRefAt(p, i, k);
      ElemRefsPrefix(p, ArrayElemRefs(arrays[n]), k);
    } else {
      assert arrays[..i] == p;
    }
  }

  lemma ElemRefsPrefix(p: seq<ArrayRec>, tail: seq<nat>, k: int)
    requires 0 <= k < |ElemRefs(p)|
    ensures (ElemRefs(p) + tail)[k] == ElemRefs(p)[k]
  {
  }

  /** The arrays before `i` and array `i` together are no longer than all. */
  lemma {:induction false} SumLensPrefix(arrays: seq<ArrayRec>, i: int)
    requires 0 <= i < |arrays|
    ensures SumLens(arrays[..i + 1]) == SumLens(arrays[..i]) + arrays[i].len
    ensures SumLens(arrays[..i + 1]) <= SumLens(arrays)
    decreases |arrays|
  {
    PrefixOfPrefix(arrays, i);
    var n := |arrays| - 1;
    if i < n {
      var p := arrays[..n];
      assert p[..i + 1] == arrays[..i + 1] && p[..i] == arrays[..i] && p[i] == arrays[i];
      SumLensPrefix(p, i);
    } else {
      assert arrays[..i + 1] == arrays;
    }
  }

  /** The element table holds, from the start of array `i` on, the value
      indices `offset`, `offset + 1`, ... of the elements of array `i`. */
  lemma ElemRefsLayout(arrays: seq<ArrayRec>)
    ensures forall i :: 0 <= i < |arrays| ==>
      SumLens(arrays[..i]) + arrays[i].len <= SumLens(arrays) &&
      forall k :: SumLens(arrays[..i]) <= k < SumLens(arrays[..i]) + arrays[i].len ==>
        ElemRefs(arrays)[k] == arrays[i].offset + (k - SumLens(arrays[..i]))
  {
    forall i | 0 <= i < |arrays|
      ensures SumLens(arrays[..i]) + arrays[i].len <= SumLens(arrays)
      ensures forall k :: SumLens(arrays[..i]) <= k < SumLens(arrays[..i]) + arrays[i].len ==>
        ElemRefs(arrays)[k] == arrays[i].offset + (k - SumLens(arrays[..i]))
    {
      SumLensPrefix(arrays, i);
      forall k | SumLens(arrays[..i]) <= k < SumLens(arrays[..i]) + arrays[i].len
        ensures ElemRefs(arrays)[k] == arrays[i].offset + (k - SumLens(arrays[..i]))
      {
        ElemRefAt(arrays, i, k);
      }
    }
  }

  lemma {:induction false} HeaderAt(arrays: seq<ArrayRec>, i: int)
    requires 0 <= i < |arrays|
    ensures Headers(arrays)[i] == Header(SumLens(arrays[..i]), arrays[i].len)
  {
    var n := |arrays| - 1;
    var p := arrays[..n];
    if i < n {
      assert p[..i] == arrays[..i];
      HeaderAt(p, i);
    } else {
      assert arrays[..i] == p;
    }
  }

  /** Header `i` starts at the total length of arrays `0..i-1` and has the
      length of array `i`; so the first starts at 0 and each next one where
      the previous one ends. */
  lemma HeadersLayout(arrays: seq<ArrayRec>)
    ensures forall i :: 0 <= i < |arrays| ==> Headers(arrays)[i] == Header(SumLens(arrays[..i]), arrays[i].len)
    ensures |arrays| > 0 ==> Headers(arrays)[0].start == 0
    ensures forall i :: 0 < i < |arrays| ==>
      Headers(arrays)[i].start == Headers(arrays)[i - 1].start + Headers(arrays)[i - 1].len
  {
    forall i | 0 <= i < |arrays| ensures Headers(arrays)[i] == Header(SumLens(arrays[..i]), arrays[i].len) {
      HeaderAt(arrays, i);
    }
    assert arrays[..0] == [];
    forall i | 0 < i < |arrays|
      ensures Headers(arrays)[i].start == Headers(arrays)[i - 1].start + Headers(arrays)[i - 1].len
    {
      SumLensPrefix(arrays, i - 1);
    }
  }

  /** The nested loop that writes the element table. */
  method ElementTable(arrays: seq<ArrayRec>) returns (elems: seq<nat>)
    ensures elems == ElemRefs(arrays)
  {
    elems := [];
    var i := 0;
    while i < |arrays|
      invariant 0 <= i <= |arrays|
      invariant elems == ElemRefs(arrays[..i])
    {
      var a := arrays[i];
      var j := 0;
      while j < a.len
        invariant 0 <= j <= a.len
        invariant elems == ElemRefs(arrays[..i]) + seq(j, q requires 0 <= q < j => a.offset + q)
      {
        elems := elems + [a.offset + j];
        j := j + 1;
      }
      PrefixOfPrefix(arrays, i);
      i := i + 1;
    }
    assert arrays[..i] == arrays;
  }

  /** The loop that writes the array headers with the running `cum_offset`. */
  method HeaderTable(arrays: seq<ArrayRec>) returns (headers: seq<Header>)
    ensures headers == Headers(arrays)
  {
    headers := [];
    var cum := 0;
    var i := 0;
    while i < |arrays|
      invariant 0 <= i <= |arrays|
      invariant headers == Headers(arrays[..i]) && cum == SumLens(arrays[..i])
    {
      headers := headers + [Header(cum, arrays[i].len)];
      cum := cum + arrays[i].len;
      PrefixOfPrefix(arrays, i);
      i := i + 1;
    }
    assert arrays[..i] == arrays;
  }

  // ---------------------------------------------------------------------
  // Rows.

  /** The payload of field `f` of a message row. The type bucket of a field
      is looked up by its type name; a missing bucket, a failed scan or a
      value of the wrong shape is an internal fault. */
  function PayloadOf(t: Table, pool: seq<PoolEntry>, f: Field): Result<Payload, Fault> {
    match f.slot
    case Unset => Ok(NotSet)
    case Many(arr) =>
      if f.kind.Str? then Err(Unsupported(f.name))
      else
        var i := FindKey(t, TypeKey(f.kind));
        if i < 0 then Err(InternalFault)
        else
          var r := FirstArray(t[i].arrays, arr.id);
          if r < 0 then Err(InternalFault) else Ok(ArrayRef(t[i].cident, r))
    case Single(v) =>
      if f.kind.Str? then
        if !v.Text? then Err(InternalFault)
        else
          match FindString(pool, v.s)
          case None => Err(InternalFault)
          case Some(n) => Ok(StrRef(pool[n].num))
      else if f.kind.Sub? then
        var i := FindKey(t, TypeKey(f.kind));
        if i < 0 || !v.Ref? then Err(InternalFault)
        else
          var r := FirstValue(t[i].values, v.m.id);
          if r < 0 then Err(InternalFault) else Ok(ValueRef(t[i].cident, r))
      else Ok(Literal(v))
  }

  /** The `has` bits of a message row. */
  function Presence(m: Msg): seq<bool> {
    seq(|m.fields|, j requires 0 <= j < |m.fields| => IsSet(m.fields[j]))
  }

  function PayloadResults(t: Table, pool: seq<PoolEntry>, m: Msg): seq<Result<Payload, Fault>> {
    seq(|m.fields|, j requires 0 <= j < |m.fields| => PayloadOf(t, pool, m.fields[j]))
  }

  /** The row for value `v` of bucket `b`: what is written depends on the
      kind of the field that created the bucket. */
  function RowOf(t: Table, pool: seq<PoolEntry>, b: Bucket, v: Value): Result<Row, Fault> {
    if b.kind.Sub? then
      if !v.Ref? then Err(InternalFault)
      else
        match Collect(PayloadResults(t, pool, v.m))
        case Err(e) => Err(e)
        case Ok(ps) => Ok(MsgRow(Presence(v.m), ps))
    else if b.kind.Str? then Ok(NoRow)
    else Ok(ScalarRow(v))
  }

  function RowResults(t: Table, pool: seq<PoolEntry>, b: Bucket): seq<Result<Row, Fault>> {
    seq(|b.values|, j requires 0 <= j < |b.values| => RowOf(t, pool, b, b.values[j]))
  }

  function TypeDataOf(t: Table, pool: seq<PoolEntry>, b: Bucket): Result<TypeData, Fault> {
    match Collect(RowResults(t, pool, b))
    case Err(e) => Err(e)
    case Ok(rows) => Ok(TypeData(b.cident, |b.values|, ElemRefs(b.arrays), Headers(b.arrays), rows))
  }

  function TypeResults(t: Table, pool: seq<PoolEntry>): seq<Result<TypeData, Fault>> {
    seq(|t|, i requires 0 <= i < |t| => TypeDataOf(t, pool, t[i]))
  }

  /** The dump: every type in bucket order, then the root reference, which
      names the first value of the bucket `get_or_insert_typeentry` returns
      for the root's type. */
  function DumpOf(t: Table, pool: seq<PoolEntry>, root: Msg): Result<DataDump, Fault> {
    match Collect(TypeResults(t, pool))
    case Err(e) => Err(e)
    case Ok(types) =>
      RegisteredHasKey(t, RootKind(root));
      Ok(DataDump(types, Registered(t, RootKind(root))[BucketIndex(t, RootKind(root))].cident, 0))
  }

  /** The payload of one field, computed as the compiler does: string
      lookup, or the bucket lookup followed by an identity scan. */
  method EmitPayload(t: Table, pool: seq<PoolEntry>, f: Field) returns (r: Result<Payload, Fault>)
    ensures r == PayloadOf(t, pool, f)
  {
    match f.slot {
      case Unset =>
        r := Ok(NotSet);
      case Many(arr) =>
        if f.kind.Str? {
          return Err(Unsupported(f.name));
        }
        var i := FindKey(t, TypeKey(f.kind));
        if i < 0 {
          return Err(InternalFault);
        }
        var k := ScanArrays(t[i].arrays, arr.id);
        if k < 0 {
          return Err(InternalFault);
        }
        r := Ok(ArrayRef(t[i].cident, k));
      case Single(v) =>
        if f.kind.Str? {
          if !v.Text? {
            return Err(InternalFault);
          }
          var e := FindString(pool, v.s);
          if e.None? {
            return Err(InternalFault);
          }
          r := Ok(StrRef(pool[e.value].num));
        } else if f.kind.Sub? {
          var i := FindKey(t, TypeKey(f.kind));
          if i < 0 || !v.Ref? {
            return Err(InternalFault);
          }
          var k := ScanValues(t[i].values, v.m.id);
          if k < 0 {
            return Err(InternalFault);
          }
          r := Ok(ValueRef(t[i].cident, k));
        } else {
          r := Ok(Literal(v));
        }
    }
  }

  /** One row: the presence loop, then the payload loop, which stops at the
      first failing field. */
  method EmitRow(t: Table, pool: seq<PoolEntry>, b: Bucket, v: Value) returns (r: Result<Row, Fault>)
    ensures r == RowOf(t, pool, b, v)
  {
    if b.kind.Sub? {
      if !v.Ref? {
        return Err(InternalFault);
      }
      var m := v.m;
      var has: seq<bool> := [];
      var j := 0;
      while j < |m.fields|
        invariant 0 <= j <= |m.fields|
        invariant has == Presence(m)[..j]
      {
        has := has + [IsSet(m.fields[j])];
        j := j + 1;
      }
      assert Presence(m)[..j] == Presence(m);
      ghost var rs := PayloadResults(t, pool, m);
      var data: seq<Payload> := [];
      j := 0;
      while j < |m.fields|
        invariant 0 <= j <= |m.fields|
        invariant Collect(rs[..j]) == Ok(data)
      {
        var p := EmitPayload(t, pool, m.fields[j]);
        CollectNext(rs, j);
        if p.Err? {
          CollectSticks(rs, j + 1);
          return Err(p.fault);
        }
        data := data + [p.value];
        j := j + 1;
      }
      assert rs[..j] == rs;
      r := Ok(MsgRow(has, data));
    } else if b.kind.Str? {
      r := Ok(NoRow);
    } else {
      r := Ok(ScalarRow(v));
    }
  }

  /** The rows of one type, in value order. */
  method EmitRows(t: Table, pool: seq<PoolEntry>, b: Bucket) returns (r: Result<seq<Row>, Fault>)
    ensures r == Collect(RowResults(t, pool, b))
  {
    ghost var rs := RowResults(t, pool, b);
    var rows: seq<Row> := [];
    var i := 0;
    while i < |b.values|
      invariant 0 <= i <= |b.values|
      invariant Collect(rs[..i]) == Ok(rows)
    {
      var row := EmitRow(t, pool, b, b.values[i]);
      CollectNext(rs, i);
      if row.Err? {
        CollectSticks(rs, i + 1);
        return Err(row.fault);
      }
      rows := rows + [row.value];
      i := i + 1;
    }
    assert rs[..i] == rs;
    r := Ok(rows);
  }

  /** The two passes over the types: first the element tables and array
      headers of every type, then the rows of every type. */
  method EmitTables(t: Table, pool: seq<PoolEntry>) returns (r: Result<seq<TypeData>, Fault>)
    ensures r == Collect(TypeResults(t, pool))
  {
    var elemTables: seq<seq<nat>> := [];
    var headerTables: seq<seq<Header>> := [];
    var i := 0;
    while i < |t|
      invariant 0 <= i <= |t|
      invariant |elemTables| == i && |headerTables| == i
      invariant forall q :: 0 <= q < i ==> elemTables[q] == ElemRefs(t[q].arrays) && headerTables[q] == Headers(t[q].arrays)
    {
      var elems := ElementTable(t[i].arrays);
      var headers := HeaderTable(t[i].arrays);
      elemTables := elemTables + [elems];
      headerTables := headerTables + [headers];
      i := i + 1;
    }
    ghost var rs := TypeResults(t, pool);
    var types: seq<TypeData> := [];
    i := 0;
    while i < |t|
      invariant 0 <= i <= |t|
      invariant Collect(rs[..i]) == Ok(types)
    {
      var rows := EmitRows(t, pool, t[i]);
      CollectNext(rs, i);
      if rows.Err? {
        CollectSticks(rs, i + 1);
        return Err(rows.fault);
      }
      types := types + [TypeData(t[i].cident, |t[i].values|, elemTables[i], headerTables[i], rows.value)];
      i := i + 1;
    }
    assert rs[..i] == rs;
    r := Ok(types);
  }
}
