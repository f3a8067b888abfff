/** The string interner of the data dump: every string of the instance is
    put once into a table, the table's entries are sorted by content, and
    each entry is given its index and its offset in one string blob. A
    `char` stands for one byte of the C strings, so lengths and offsets
    count `char`s. */
module Strings {
  import opened Common
  import opened Instance

  // ---------------------------------------------------------------------
  // Ordering of entries: `compare_entries` delegates to `upb_strcmp`.

  /** `upb_strcmp`, whose definition is not part of this model, taken as:
      the first differing character decides; otherwise the shorter string is
      the smaller one. The sign is what matters. */
  function StrCmp(a: string, b: string): int
    decreases |a|
  {
    if |a| == 0 || |b| == 0 then |a| - |b|
    else if a[0] != b[0] then a[0] as int - b[0] as int
    else StrCmp(a[1..], b[1..])
  }

  lemma {:induction false} StrCmpZero(a: string, b: string)
    ensures StrCmp(a, b) == 0 <==> a == b
    decreases |a|
  {
    if |a| > 0 && |b| > 0 && a[0] == b[0] {
      StrCmpZero(a[1..], b[1..]);
      assert a == [a[0]] + a[1..] && b == [b[0]] + b[1..];
    }
  }

  lemma {:induction false} StrCmpAntisymmetric(a: string, b: string)
    ensures StrCmp(a, b) == -StrCmp(b, a)
    decreases |a|
  {
    if |a| > 0 && |b| > 0 && a[0] == b[0] {
      StrCmpAntisymmetric(a[1..], b[1..]);
    }
  }

  lemma {:induction false} StrCmpTransitive(a: string, b: string, c: string)
    requires StrCmp(a, b) <= 0 && StrCmp(b, c) <= 0
    ensures StrCmp(a, c) <= 0
    decreases |a|
  {
    if |a| > 0 && |b| > 0 && |c| > 0 && a[0] == b[0] && b[0] == c[0] {
      StrCmpTransitive(a[1..], b[1..], c[1..]);
    }
  }

  /** Adjacent entries are in non-decreasing `upb_strcmp` order. */
  predicate Sorted(s: seq<string>) {
    forall i :: 0 < i < |s| ==> StrCmp(s[i - 1], s[i]) <= 0
  }

  predicate NoDup(s: seq<string>) {
    forall i, j :: 0 <= i < j < |s| ==> s[i] != s[j]
  }

  function Elems(s: seq<string>): set<string> {
    set x | x in s
  }

  lemma {:induction false} SortedPairwise(s: seq<string>)
    requires Sorted(s)
    ensures forall i, j :: 0 <= i < j < |s| ==> StrCmp(s[i], s[j]) <= 0
  {
    if |s| > 1 {
      SortedPairwise(s[1..]);
      forall j | 1 < j < |s| ensures StrCmp(s[0], s[j]) <= 0 {
        assert StrCmp(s[1..][0], s[1..][j - 1]) <= 0;
        StrCmpTransitive(s[0], s[1], s[j]);
      }
      forall i, j | 0 <= i < j < |s| ensures StrCmp(s[i], s[j]) <= 0 {
        if i > 0 {
          assert StrCmp(s[1..][i - 1], s[1..][j - 1]) <= 0;
        }
      }
    }
  }

  /** Inserts `x` before the first entry of `s` not smaller than it. */
  function InsertSorted(x: string, s: seq<string>): seq<string>
  {
    if s == [] then [x]
    else if StrCmp(x, s[0]) <= 0 then [x] + s
    else [s[0]] + InsertSorted(x, s[1..])
  }

  /** Insertion adds exactly `x`. */
  lemma {:induction false} InsertSortedMultiset(x: string, s: seq<string>)
    ensures multiset(InsertSorted(x, s)) == multiset(s) + multiset{x}
    decreases |s|
  {
    if s != [] && StrCmp(x, s[0]) > 0 {
      InsertSortedMultiset(x, s[1..]);
      TailMultiset(s);
      ConsMultiset(s[0], InsertSorted(x, s[1..]));
    } else {
      ConsMultiset(x, s);
    }
  }

  /** Insertion into a sorted sequence keeps it sorted; the first entry is
      `x` or the old first entry. */
  lemma {:induction false} InsertSortedSorted(x: string, s: seq<string>)
    requires Sorted(s)
    ensures Sorted(InsertSorted(x, s))
    ensures InsertSorted(x, s)[0] == x || (|s| > 0 && InsertSorted(x, s)[0] == s[0])
    decreases |s|
  {
    if s == [] {
    } else if StrCmp(x, s[0]) <= 0 {
      ConsSorted(x, s);
    } else {
      var rest := InsertSorted(x, s[1..]);
      SortedTail(s);
      InsertSortedSorted(x, s[1..]);
      StrCmpAntisymmetric(x, s[0]);
      assert |s| > 1 ==> s[1..][0] == s[1];
      ConsSorted(s[0], rest);
    }
  }

  lemma ConsMultiset(y: string, r: seq<string>)
    ensures multiset([y] + r) == multiset(r) + multiset{y}
  {
  }

  lemma ConsSorted(y: string, r: seq<string>)
    requires Sorted(r) && (|r| > 0 ==> StrCmp(y, r[0]) <= 0)
    ensures Sorted([y] + r)
  {
    var q := [y] + r;
    forall i | 0 < i < |q| ensures StrCmp(q[i - 1], q[i]) <= 0 {
      if i > 1 {
        assert q[i - 1] == r[i - 2] && q[i] == r[i - 1];
      }
    }
  }

  /** The sort `qsort(..., compare_entries)` performs: the result is sorted
      and a permutation of the input. */
  function SortEntries(s: seq<string>): (r: seq<string>)
    ensures Sorted(r)
    ensures multiset(r) == multiset(s)
  {
    if s == [] then []
    else
      var prefix := SortEntries(s[..|s| - 1]);
      InsertSortedMultiset(s[|s| - 1], prefix);
      InsertSortedSorted(s[|s| - 1], prefix);
      LastMultiset(s);
      InsertSorted(s[|s| - 1], prefix)
  }

  lemma MultisetElems(a: seq<string>, b: seq<string>)
    requires multiset(a) == multiset(b)
    ensures Elems(a) == Elems(b)
  {
    forall x ensures x in a <==> x in b {
      assert x in a <==> x in multiset(a);
      assert x in b <==> x in multiset(b);
    }
  }

  /** Two sorted arrangements of the same entries are equal: the sorted pool
      does not depend on the order in which the table yields its entries. */
  lemma {:induction false} SortedUnique(a: seq<string>, b: seq<string>)
    requires Sorted(a) && Sorted(b)
    requires multiset(a) == multiset(b)
    ensures a == b
    decreases |a|
  {
    assert |a| == |multiset(a)| == |multiset(b)| == |b|;
    if |a| > 0 {
      SameHead(a, b);
      TailMultiset(a);
      TailMultiset(b);
      SortedTail(a);
      SortedTail(b);
      SortedUnique(a[1..], b[1..]);
      assert a == [a[0]] + a[1..] && b == [b[0]] + b[1..];
    }
  }

  /** Two sorted sequences with the same elements start with the same one. */
  lemma SameHead(a: seq<string>, b: seq<string>)
    requires Sorted(a) && Sorted(b) && |a| > 0 && |b| > 0
    requires multiset(a) == multiset(b)
    ensures a[0] == b[0]
  {
    SortedPairwise(a);
    SortedPairwise(b);
    assert a[0] in multiset(b);
    assert b[0] in multiset(a);
    var i :| 0 <= i < |b| && b[i] == a[0];
    var j :| 0 <= j < |a| && a[j] == b[0];
    assert StrCmp(b[0], a[0]) <= 0 by {
      if i > 0 { assert StrCmp(b[0], b[i]) <= 0; }
      StrCmpZero(b[0], b[0]);
    }
    assert StrCmp(a[0], b[0]) <= 0 by {
      if j > 0 { assert StrCmp(a[0], a[j]) <= 0; }
      StrCmpZero(a[0], a[0]);
    }
    StrCmpAntisymmetric(a[0], b[0]);
    StrCmpZero(a[0], b[0]);
  }

  lemma SortedTail(a: seq<string>)
    requires Sorted(a) && |a| > 0
    ensures Sorted(a[1..])
  {
    forall i | 0 < i < |a| - 1 ensures StrCmp(a[1..][i - 1], a[1..][i]) <= 0 {
      assert a[1..][i - 1] == a[i] && a[1..][i] == a[i + 1];
    }
  }

  lemma LastMultiset(a: seq<string>)
    requires |a| > 0
    ensures multiset(a) == multiset(a[..|a| - 1]) + multiset{a[|a| - 1]}
  {
    assert a == a[..|a| - 1] + [a[|a| - 1]];
  }

  lemma TailMultiset(a: seq<string>)
    requires |a| > 0
    ensures multiset(a[1..]) == multiset(a) - multiset{a[0]}
  {
    assert a == [a[0]] + a[1..];
    assert multiset(a) == multiset{a[0]} + multiset(a[1..]);
  }

  lemma NoDupMultiset(a: seq<string>, b: seq<string>)
    requires multiset(a) == multiset(b) && NoDup(a)
    ensures NoDup(b)
  {
    forall i, j | 0 <= i < j < |b| ensures b[i] != b[j] {
      assert b[i] in multiset(a);
      MultiplicityOne(a, b[i]);
      TwoOccurrences(b, i, j);
    }
  }

  lemma {:induction false} MultiplicityOne(a: seq<string>, x: string)
    requires NoDup(a) && x in a
    ensures multiset(a)[x] == 1
  {
    assert a == [a[0]] + a[1..];
    if a[0] == x {
      assert x !in a[1..];
    } else {
      MultiplicityOne(a[1..], x);
    }
  }

  lemma TwoOccurrences(b: seq<string>, i: nat, j: nat)
    requires i < j < |b|
    ensures b[i] == b[j] ==> multiset(b)[b[i]] >= 2
  {
    assert b == b[..i] + [b[i]] + b[i + 1..j] + [b[j]] + b[j + 1..];
  }

  /** With distinct contents the pool is strictly increasing, and it depends
      only on the set of contents. */
  lemma SortedPoolDeterministic(k1: seq<string>, k2: seq<string>)
    requires NoDup(k1) && NoDup(k2) && Elems(k1) == Elems(k2)
    ensures SortEntries(k1) == SortEntries(k2)
    ensures forall i, j :: 0 <= i < j < |SortEntries(k1)| ==> StrCmp(SortEntries(k1)[i], SortEntries(k1)[j]) < 0
  {
    DistinctMultiset(k1, k2);
    SortedUnique(SortEntries(k1), SortEntries(k2));
    var r := SortEntries(k1);
    NoDupMultiset(k1, r);
    SortedPairwise(r);
    forall i, j | 0 <= i < j < |r| ensures StrCmp(r[i], r[j]) < 0 {
      StrCmpZero(r[i], r[j]);
    }
  }

  lemma DistinctMultiset(a: seq<string>, b: seq<string>)
    requires NoDup(a) && NoDup(b) && Elems(a) == Elems(b)
    ensures multiset(a) == multiset(b)
  {
    forall x ensures multiset(a)[x] == multiset(b)[x] {
      if x in a {
        assert x in Elems(b);
        MultiplicityOne(a, x);
        MultiplicityOne(b, x);
      } else {
        assert x !in Elems(b);
        assert x !in multiset(b);
      }
    }
  }

  // ---------------------------------------------------------------------
  // What the interner collects.

  /** Strings `add_strings_from_value` collects from one value of a field
      of kind `k`: the value itself for a string field, everything under it
      for a submessage field. */
  function ValueStrings(k: Kind, v: Value): set<string>
    decreases v
  {
    if k.Str? then (if v.Text? then {v.s} else {})
    else if k.Sub? then (if v.Ref? then MsgStrings(v.m) else {})
    else {}
  }

  function FieldStrings(f: Field): set<string>
    decreases f
  {
    match f.slot
    case Unset => {}
    case Single(v) => ValueStrings(f.kind, v)
    case Many(arr) => ElemsStrings(f, |arr.elems|)
  }

  function ElemsStrings(f: Field, n: nat): set<string>
    requires f.slot.Many? && n <= |f.slot.arr.elems|
    decreases f, n
  {
    if n == 0 then {} else ElemsStrings(f, n - 1) + ValueStrings(f.kind, f.slot.arr.elems[n - 1])
  }

  function FieldsStrings(m: Msg, n: nat): set<string>
    requires n <= |m.fields|
    decreases m, n
  {
    if n == 0 then {} else FieldsStrings(m, n - 1) + FieldStrings(m.fields[n - 1])
  }

  /** Every string of every set string field reachable from `m` through set
      submessages and arrays, elements of repeated string fields included. */
  function MsgStrings(m: Msg): set<string>
    decreases m
  {
    FieldsStrings(m, |m.fields|)
  }

  /** The string table of the interner: its entries in iteration order. */
  class StrTable {
    var keys: seq<string>

    /** Each content is held exactly once. */
    ghost predicate Valid()
      reads this
    {
      NoDup(keys)
    }

    constructor ()
      ensures Valid() && keys == []
    {
      keys := [];
    }

    /** A lookup guards the insert: a content is added only when absent. */
    method Intern(s: string)
      requires Valid()
      modifies this
      ensures Valid()
      ensures keys == if s in old(keys) then old(keys) else old(keys) + [s]
    {
      if s !in keys {
        keys := keys + [s];
      }
    }

    /** `add_strings_from_value`. */
    method AddStringsFromValue(k: Kind, v: Value)
      requires Valid()
      modifies this
      ensures Valid()
      ensures old(keys) <= keys
      ensures Elems(keys) == Elems(old(keys)) + ValueStrings(k, v)
      decreases v
    {
      if k.Str? {
        if v.Text? {
          Intern(v.s);
        }
      } else if k.Sub? {
        if v.Ref? {
          AddStringsFromMsg(v.m);
        }
      }
    }

    /** `add_strings_from_msg`: every set field in declaration order, every
        element of a set array. */
    method AddStringsFromMsg(m: Msg)
      requires Valid()
      modifies this
      ensures Valid()
      ensures old(keys) <= keys
      ensures Elems(keys) == Elems(old(keys)) + MsgStrings(m)
      decreases m
    {
      var i := 0;
      while i < |m.fields|
        invariant 0 <= i <= |m.fields|
        invariant Valid()
        invariant old(keys) <= keys
        invariant Elems(keys) == Elems(old(keys)) + FieldsStrings(m, i)
      {
        var f := m.fields[i];
        match f.slot {
          case Unset =>
          case Single(v) =>
            AddStringsFromValue(f.kind, v);
          case Many(arr) =>
            var j := 0;
            while j < |arr.elems|
              invariant 0 <= j <= |arr.elems|
              invariant Valid()
              invariant old(keys) <= keys
              invariant Elems(keys) == Elems(old(keys)) + FieldsStrings(m, i) + ElemsStrings(f, j)
            {
              AddStringsFromValue(f.kind, arr.elems[j]);
              j := j + 1;
            }
        }
        i := i + 1;
      }
    }

    /** `strtable_to_array`: the entries, in the table's iteration order. */
    method ToArray() returns (entries: seq<string>)
      ensures entries == keys
    {
      entries := [];
      var i := 0;
      while i < |keys|
        invariant 0 <= i <= |keys|
        invariant entries == keys[..i]
      {
        entries := entries + [keys[i]];
        i := i + 1;
      }
    }
  }

  // ---------------------------------------------------------------------
  // The emitted pool.

  /** An entry of the emitted `strings[]` table. */
  datatype PoolEntry = PoolEntry(content: string, offset: nat, num: nat)

  function TotalLen(s: seq<string>): nat {
    if s == [] then 0 else TotalLen(s[..|s| - 1]) + |s[|s| - 1]|
  }

  function Concat(s: seq<string>): string {
    if s == [] then "" else Concat(s[..|s| - 1]) + s[|s| - 1]
  }

  lemma {:induction false} ConcatLength(s: seq<string>)
    ensures |Concat(s)| == TotalLen(s)
  {
    if s != [] {
      ConcatLength(s[..|s| - 1]);
    }
  }

  lemma TotalLenStep(s: seq<string>, k: nat)
    requires k < |s|
    ensures TotalLen(s[..k + 1]) == TotalLen(s[..k]) + |s[k]|
    ensures Concat(s[..k + 1]) == Concat(s[..k]) + s[k]
  {
    assert s[..k + 1][..k] == s[..k];
  }

  /** Entry `k` sits in the concatenation at the sum of the lengths before it. */
  lemma {:induction false} ConcatAt(s: seq<string>, k: nat)
    requires k < |s|
    ensures TotalLen(s[..k]) + |s[k]| <= |Concat(s)|
    ensures Concat(s)[TotalLen(s[..k]) .. TotalLen(s[..k]) + |s[k]|] == s[k]
    decreases |s|
  {
    var last := |s| - 1;
    ConcatLength(s[..last]);
    assert s[..last] + [s[last]] == s;
    if k == last {
      assert Concat(s) == Concat(s[..last]) + s[last];
    } else {
      ConcatAt(s[..last], k);
      assert s[..last][..k] == s[..k];
      assert Concat(s) == Concat(s[..last]) + s[last];
    }
  }

  /** The layout the emit loop produces: entry `i` holds the `i`-th content
      with `num == i`; offsets start at 0 and each is the previous one plus the
      previous length; each content sits in `strdata` at its offset; and
      `strdata` is exactly as long as all contents together. */
  predicate PoolLayout(entries: seq<string>, pool: seq<PoolEntry>, strdata: string) {
    && |pool| == |entries|
    && (forall i :: 0 <= i < |pool| ==> pool[i].content == entries[i] && pool[i].num == i)
    && (|pool| > 0 ==> pool[0].offset == 0)
    && (forall i :: 0 <= i < |pool| - 1 ==> pool[i + 1].offset == pool[i].offset + |entries[i]|)
    && (forall i :: 0 <= i < |pool| ==> pool[i].offset + |entries[i]| <= |strdata|)
    && (forall i :: 0 <= i < |pool| ==> strdata[pool[i].offset .. pool[i].offset + |entries[i]|] == entries[i])
    && |strdata| == TotalLen(entries)
  }

  /** The emit loop: entry `i` gets `num == i` and the running offset,
      and the contents are written one after another into `strdata`. */
  method AssignOffsets(entries: seq<string>) returns (pool: seq<PoolEntry>, strdata: string)
    ensures PoolLayout(entries, pool, strdata)
  {
    pool := [];
    strdata := "";
    var offset := 0;
    var i := 0;
    while i < |entries|
      invariant 0 <= i <= |entries|
      invariant |pool| == i
      invariant offset == TotalLen(entries[..i]) && strdata == Concat(entries[..i])
      invariant forall k :: 0 <= k < i ==> pool[k] == PoolEntry(entries[k], TotalLen(entries[..k]), k)
    {
      var s := entries[i];
      pool := pool + [PoolEntry(s, offset, i)];
      strdata := strdata + s;
      TotalLenStep(entries, i);
      offset := offset + |s|;
      i := i + 1;
    }
    assert entries[..i] == entries;
    LayoutFacts(entries, pool, strdata);
  }

  /** The pool the emit loop builds: entry `k` holds content `k`, the
      lengths of the contents before it as its offset, and `k` as its number. */
  predicate Numbered(entries: seq<string>, pool: seq<PoolEntry>) {
    |pool| == |entries| &&
    forall k :: 0 <= k < |pool| ==> pool[k] == PoolEntry(entries[k], TotalLen(entries[..k]), k)
  }

  lemma LayoutFacts(entries: seq<string>, pool: seq<PoolEntry>, strdata: string)
    requires Numbered(entries, pool) && strdata == Concat(entries)
    ensures PoolLayout(entries, pool, strdata)
  {
    ConcatLength(entries);
    if |pool| > 0 {
      assert entries[..0] == [];
    }
    OffsetsChain(entries, pool);
    ContentsPlaced(entries, pool, strdata);
  }

  lemma OffsetsChain(entries: seq<string>, pool: seq<PoolEntry>)
    requires Numbered(entries, pool)
    ensures forall i :: 0 <= i < |pool| - 1 ==> pool[i + 1].offset == pool[i].offset + |entries[i]|
  {
    forall k | 0 <= k < |pool| - 1 ensures pool[k + 1].offset == pool[k].offset + |entries[k]| {
      TotalLenStep(entries, k);
    }
  }

  lemma ContentsPlaced(entries: seq<string>, pool: seq<PoolEntry>, strdata: string)
    requires Numbered(entries, pool) && strdata == Concat(entries)
    ensures forall i :: 0 <= i < |pool| ==> pool[i].offset + |entries[i]| <= |strdata|
    ensures forall i :: 0 <= i < |pool| ==> strdata[pool[i].offset .. pool[i].offset + |entries[i]|] == entries[i]
  {
    forall k | 0 <= k < |pool|
      ensures pool[k].offset + |entries[k]| <= |strdata|
      ensures strdata[pool[k].offset .. pool[k].offset + |entries[k]|] == entries[k]
    {
      ConcatAt(entries, k);
    }
  }

  /** `upb_strtable_lookup` on the finished table: the entry whose content is `s`. */
  function FindString(pool: seq<PoolEntry>, s: string): (r: Option<nat>)
    ensures r.Some? ==> r.value < |pool| && pool[r.value].content == s
    ensures r.None? <==> forall i :: 0 <= i < |pool| ==> pool[i].content != s
  {
    if pool == [] then None
    else if pool[|pool| - 1].content == s then Some(|pool| - 1)
    else FindString(pool[..|pool| - 1], s)
  }
}
