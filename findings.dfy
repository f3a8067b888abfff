/** The second pass of `add_submsgs` over an array as the code is written:
    every element is taken for a message and walked. An element that is not
    a message (the array of a repeated scalar field) is read as a message
    address; that read is modelled as a failure. `Types.Descended`, which
    walks only the message elements, is the corrected pass the rest of the
    model uses. */
module Findings {
  import opened Common
  import opened Instance
  import opened Types

  /** The pass over the first `n` elements as written: `None` once an
      element that is not a message is dereferenced as one. */
  function DescendedAsWritten(t: Table, f: Field, n: nat): Option<Table>
    requires f.slot.Many? && n <= |f.slot.arr.elems|
  {
    if n == 0 then Some(t)
    else
      match DescendedAsWritten(t, f, n - 1)
      case None => None
      case Some(u) =>
        match f.slot.arr.elems[n - 1]
        case Ref(x) => Some(WalkedMsg(u, x))
        case _ => None
  }

  /** The pass as written is defined exactly when every element is a
      message, and then it agrees with the corrected pass. */
  lemma {:induction false} AsWrittenAgrees(t: Table, f: Field, n: nat)
    requires f.slot.Many? && n <= |f.slot.arr.elems|
    ensures DescendedAsWritten(t, f, n).Some? <==> forall j :: 0 <= j < n ==> f.slot.arr.elems[j].Ref?
    ensures DescendedAsWritten(t, f, n).Some? ==> DescendedAsWritten(t, f, n).value == Descended(t, f, n)
  {
    if n > 0 {
      AsWrittenAgrees(t, f, n - 1);
    }
  }

  /** A set repeated `int32` field with one element: the registry holds the
      array and its element, and the pass as written then dereferences the
      number as a message, while the corrected pass leaves the registry as
      it is. */
  lemma ScalarArrayDereferenced()
    ensures var f := Field("values", Scalar("int32_t"), Many(ArrRef(0, [Num(7)])));
      var w := WithValues(WithArray([], f.kind, f.slot.arr), f.kind, f.slot.arr.elems, 1);
      && |w| == 1 && w[0].values == [Num(7)] && w[0].arrays == [ArrayRec(0, 1, f.slot.arr)]
      && DescendedAsWritten(w, f, 1) == None
      && Descended(w, f, 1) == w
  {
    var f := Field("values", Scalar("int32_t"), Many(ArrRef(0, [Num(7)])));
    var a := WithArray([], f.kind, f.slot.arr);
    assert Registered([], f.kind) == [NewBucket(f.kind)];
    assert |a| == 1 && a[0].values == [] && a[0].arrays == [ArrayRec(0, 1, f.slot.arr)];
    assert FindKey(a, TypeKey(f.kind)) == 0;
    assert Registered(a, f.kind) == a;
  }
}
