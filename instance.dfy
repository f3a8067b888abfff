/** The message instance the compiler dumps: a tree of messages whose fields
    are unset, hold one value, or hold an array. Object identity (the C
    addresses the compiler compares) is modelled by the `id` of a message and
    of an array. A message type may refer to itself; a message value cannot
    contain itself, which a datatype guarantees. */
module Instance {

  /** The kind of a field: a scalar with its C type name, a string or bytes
      field with its C type name, or a submessage with the full name of its
      message type. */
  datatype Kind = Scalar(ctype: string) | Str(ctype: string) | Sub(fqname: string)

  datatype Value = Num(lit: int) | Text(s: string) | Ref(m: Msg)

  /** A repeated field's array; `id` is the identity of the array object. */
  datatype ArrRef = ArrRef(id: nat, elems: seq<Value>)

  /** `Unset` is a field whose presence bit is clear; `Many` is the data of a
      repeated field, `Single` that of a singular one. */
  datatype Slot = Unset | Single(v: Value) | Many(arr: ArrRef)

  /** A field of a message: the field definition (name and kind) with the data. */
  datatype Field = Field(name: string, kind: Kind, slot: Slot)

  /** A message: its identity, its type's full name and its fields in
      declaration order. */
  datatype Msg = Msg(id: nat, fqname: string, fields: seq<Field>)

  predicate IsSet(f: Field) {
    !f.slot.Unset?
  }

  /** A set repeated string field: the case the data dump does not support. */
  predicate IsStringArray(f: Field) {
    f.kind.Str? && f.slot.Many?
  }

  /** The name of the type bucket a field's values go to: the message type's
      full name, or the C type name of a scalar. */
  function TypeKey(k: Kind): string {
    match k
    case Sub(n) => n
    case Scalar(c) => c
    case Str(c) => c
  }

  /** The field that the data dump invents to start the walk at the root. */
  function RootKind(root: Msg): Kind {
    Sub(root.fqname)
  }

  /** A value fits a kind: numbers in scalar fields, strings in string
      fields, and messages of the named type in submessage fields. */
  predicate ValueFits(k: Kind, v: Value) {
    match k
    case Scalar(_) => v.Num?
    case Str(_) => v.Text?
    case Sub(n) => v.Ref? && v.m.fqname == n
  }

  /** Every value held by a field of `m` fits the field's kind. */
  predicate LocallyConforms(m: Msg) {
    forall j :: 0 <= j < |m.fields| ==> FieldConforms(m.fields[j])
  }

  predicate FieldConforms(f: Field) {
    match f.slot
    case Unset => true
    case Single(v) => ValueFits(f.kind, v)
    case Many(arr) => forall e :: e in arr.elems ==> ValueFits(f.kind, e)
  }

  /** The messages the walk of the type buckets visits from `m`: `m` itself,
      the messages in its set singular submessage fields, and the message
      elements of its set non-string arrays, transitively. */
  function Subtree(m: Msg): set<Msg>
  {
    {m} + FieldsSubtree(m, |m.fields|)
  }

  function FieldsSubtree(m: Msg, n: nat): set<Msg>
    requires n <= |m.fields|
    decreases m, n
  {
    if n == 0 then {} else FieldsSubtree(m, n - 1) + FieldSubtree(m.fields[n - 1])
  }

  function FieldSubtree(f: Field): set<Msg>
    decreases f
  {
    match f.slot
    case Unset => {}
    case Single(v) => if f.kind.Sub? then ValueSubtree(v) else {}
    case Many(arr) => if f.kind.Str? then {} else ElemsSubtree(f, |arr.elems|)
  }

  function ElemsSubtree(f: Field, n: nat): set<Msg>
    requires f.slot.Many? && n <= |f.slot.arr.elems|
    decreases f, n
  {
    if n == 0 then {} else ElemsSubtree(f, n - 1) + ValueSubtree(f.slot.arr.elems[n - 1])
  }

  function ValueSubtree(v: Value): set<Msg>
    decreases v
  {
    match v
    case Ref(x) => Subtree(x)
    case _ => {}
  }

  /** The instance conforms to its definitions everywhere the walk goes. */
  predicate Conforms(root: Msg) {
    forall x :: x in Subtree(root) ==> LocallyConforms(x)
  }
}
