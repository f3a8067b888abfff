/** The in-place identifier helpers of the compiler: `to_cident`, `to_preproc`
    and `my_memrchr`. Strings are arrays of characters rewritten in place; the
    meaning of each rewrite is given by a function on sequences. */
module Names {

  /** The two characters `to_cident` turns into an underscore. */
  predicate IsSeparator(c: char) {
    c == '.' || c == '/'
  }

  predicate IsLower(c: char) {
    'a' <= c <= 'z'
  }

  function CIdentChar(c: char): char {
    if IsSeparator(c) then '_' else c
  }

  /** ASCII-only `toupper`. */
  function Upper(c: char): char {
    if IsLower(c) then (c as int - 32) as char else c
  }

  /** The C identifier for a dotted or slashed name: `foo.bar.Baz` becomes `foo_bar_Baz`. */
  function CIdent(s: string): string {
    seq(|s|, i requires 0 <= i < |s| => CIdentChar(s[i]))
  }

  function UpperAll(s: string): string {
    seq(|s|, i requires 0 <= i < |s| => Upper(s[i]))
  }

  /** The preprocessor identifier: the C identifier, upper-cased. */
  function Preproc(s: string): string {
    UpperAll(CIdent(s))
  }

  lemma CIdentKeepsLength(s: string)
    ensures |CIdent(s)| == |s| && |Preproc(s)| == |s|
  {
  }

  /** Exactly the separators change, and each becomes an underscore. */
  lemma CIdentChangesOnlySeparators(s: string, i: nat)
    requires i < |s|
    ensures CIdent(s)[i] != s[i] <==> IsSeparator(s[i])
    ensures IsSeparator(s[i]) ==> CIdent(s)[i] == '_'
  {
  }

  lemma CIdentHasNoSeparator(s: string)
    ensures forall i :: 0 <= i < |CIdent(s)| ==> !IsSeparator(CIdent(s)[i])
  {
  }

  lemma CIdentIdempotent(s: string)
    ensures CIdent(CIdent(s)) == CIdent(s)
  {
  }

  /** A preprocessor identifier holds no lower-case letter and no separator. */
  lemma PreprocIsUpperIdentifier(s: string)
    ensures forall i :: 0 <= i < |Preproc(s)| ==> !IsLower(Preproc(s)[i]) && !IsSeparator(Preproc(s)[i])
  {
  }

  /** Characters other than separators and lower-case letters are kept. */
  lemma PreprocKeepsOthers(s: string, i: nat)
    requires i < |s| && !IsSeparator(s[i]) && !IsLower(s[i])
    ensures Preproc(s)[i] == s[i]
  {
  }

  /** `to_cident`: rewrites every separator of the buffer to an underscore, in place. */
  method ToCIdent(a: array<char>)
    modifies a
    ensures a[..] == CIdent(old(a[..]))
  {
    var i := 0;
    while i < a.Length
      invariant 0 <= i <= a.Length
      invariant forall k :: 0 <= k < i ==> a[k] == CIdentChar(old(a[k]))
      invariant forall k :: i <= k < a.Length ==> a[k] == old(a[k])
    {
      if a[i] == '.' || a[i] == '/' {
        a[i] := '_';
      }
      i := i + 1;
    }
  }

  /** `to_preproc`: `to_cident`, then upper-cases every character, in place. */
  method ToPreproc(a: array<char>)
    modifies a
    ensures a[..] == Preproc(old(a[..]))
  {
    ToCIdent(a);
    ghost var mid := a[..];
    var i := 0;
    while i < a.Length
      invariant 0 <= i <= a.Length
      invariant forall k :: 0 <= k < i ==> a[k] == Upper(mid[k])
      invariant forall k :: i <= k < a.Length ==> a[k] == mid[k]
    {
      a[i] := Upper(a[i]);
      i := i + 1;
    }
  }

  /** `my_memrchr`: scans `data[len-1]` down to `data[1]` for `c`. The result
      is the largest offset in `[1, len-1]` holding `c`, or 0 when there is
      none; `data[0]` is never examined. For `len == 0` the unsigned
      `len - 1` converts to the int -1 and the loop does not run. */
  method MemRChr(data: array<char>, c: char, len: nat) returns (off: int)
    requires len <= data.Length
    ensures len == 0 ==> off == -1
    ensures len > 0 ==> 0 <= off < len
    ensures off > 0 ==> data[off] == c
    ensures forall k :: off < k < len && 0 < k ==> data[k] != c
  {
    off := len - 1;
    if len == 0 {
      return;
    }
    while off > 0 && data[off] != c
      invariant 0 <= off < len
      invariant forall k :: off < k < len ==> data[k] != c
    {
      off := off - 1;
    }
  }
}
