# upbc data dump, modelled in Dafny

This project models the data-dump engine of the upb compiler, `tools/upbc.c`.
The engine takes a parsed protocol buffer message instance and writes its data
as static C structures. It works in four stages:

1. **Names.** Type names are turned into C identifiers (`to_cident`) and
   preprocessor identifiers (`to_preproc`), in place and without changing
   their length. `my_memrchr` finds the last occurrence of a character.
2. **String pool.** One walk over the instance collects every string value
   once (`add_strings_from_msg` / `add_strings_from_value`) into a table.
   The table is flattened (`strtable_to_array`), sorted by `upb_strcmp`
   (`qsort` with `compare_entries`) and laid out end to end in `strdata`.
   Each entry gets its offset and its index `num`.
3. **Type buckets.** A second walk (`add_submsgs`) starts from an invented
   field of the root's type and files every message, and every element of
   every non-string array, into a bucket (type table entry) keyed by type
   name (`get_or_insert_typeentry`, `add_value`). Each array gets a record of
   the window its elements occupy in the bucket's value list. Elements are
   pushed before any of them is walked, so one array's elements stay
   contiguous.
4. **Emission.** For every bucket the engine writes:
   - the element table `<type>_array_elems`;
   - the array headers `<type>_arrays`;
   - the rows `<type>_values`.
   A message row holds presence bits plus one initialiser per field. String,
   array and submessage references are resolved by a lookup in the string
   table, or by an identity scan over the bucket. A set repeated string
   field aborts the dump. Last comes the externally visible reference to
   the root, `<root type>_values[0]`.

How the stages map to Dafny:

- **Value datatypes.** The instance is a tree of datatypes (`Instance`),
  with object identity carried by ids. Emission produces values rather than
  C text: `Emit.DataDump` holds the per-type tables and rows and the root
  reference.
- **Imperative code stays imperative**, each method proved equal to a
  reference function on values:
  - the in-place name conversions work on an `array<char>`;
  - the string interner is the class `Strings.StrTable`;
  - the type table is the class `Types.TypeTable`;
  - the offset loop, the table loops, the scans and the row loops are
    methods with loop invariants.
- **Lemma modules.** Properties of those functions are proved in:
  - `WalkFacts`: the bucket invariants;
  - `Reach`: every scan of the emission succeeds, and buckets hold exactly
    the subtree;
  - `Emit`: table layout;
  - `Dump`: the end-to-end results.
- **`Findings`** holds the one place where the model departs from the code
  on purpose (see below).

Files:

| file | contents |
|---|---|
| `common.dfy` | `Option`, `Result` |
| `instance.dfy` | message instance, conformance to the schema, subtree |
| `names.dfy` | `to_cident`, `to_preproc`, `my_memrchr` |
| `strings.dfy` | `upb_strcmp`, sorting, the interner, the pool layout loop |
| `types.dfy` | buckets, `get_or_insert_typeentry`, `add_value`, `add_submsgs` |
| `walk_lemmas.dfy` | bucket and registry invariants kept by the walk |
| `reach.dfy` | what the walk registers, and what the buckets hold |
| `emit.dfy` | element tables, array headers, rows, first-failure semantics |
| `dump.dfy` | `write_message_c` end to end and its theorems |
| `findings.dfy` | the second array pass as written |

Pool offsets are non-decreasing, not strictly increasing: the loop at lines
429–441 gives `offset(i+1) = offset(i) + len(i)`, so an empty string shares
its offset with the next entry. `Strings.OffsetsChain` states this.

## Model

| member | source | states |
|---|---|---|
| Names.ToCIdent | tools/upbc.c:25-30 | the buffer afterwards is `CIdent` of its old contents: every `.` and `/` replaced by `_` |
| Names.CIdentChangesOnlySeparators | tools/upbc.c:27-29 | a position changes exactly when it holds `.` or `/`, and then becomes `_` |
| Names.CIdentKeepsLength | tools/upbc.c:21-22 | both transformations keep the length of the string |
| Names.CIdentHasNoSeparator | tools/upbc.c:24-30 | the result contains no `.` or `/` |
| Names.CIdentIdempotent | tools/upbc.c:25-30 | converting twice is converting once |
| Names.ToPreproc | tools/upbc.c:33-38 | the buffer afterwards is the C identifier of its old contents, upper-cased |
| Names.PreprocIsUpperIdentifier | tools/upbc.c:32-38 | the result has no lower-case letter and no separator |
| Names.PreprocKeepsOthers | tools/upbc.c:36-37 | characters that are neither separators nor lower-case letters are kept |
| Names.MemRChr | tools/upbc.c:40-45 | for `len > 0`: the result is in `[0, len)`, a positive result holds `c`, and no position after the result (and above 0) holds `c`; for `len == 0` it is -1 |
| Strings.StrCmpZero | tools/upbc.c:262-266 | the comparison is 0 exactly when the strings are equal |
| Strings.StrCmpAntisymmetric | tools/upbc.c:262-266 | swapping the operands negates the comparison |
| Strings.StrCmpTransitive | tools/upbc.c:262-266 | the order is transitive |
| Strings.StrTable.constructor | tools/upbc.c:416-417 | the new string table is empty |
| Strings.StrTable.Intern | tools/upbc.c:280-282 | a string is inserted only when the lookup misses; the table never holds a string twice |
| Strings.StrTable.AddStringsFromValue | tools/upbc.c:275-286 | the table grows by exactly the strings of the value (its own, or those of the submessage's subtree), keeps what it held and holds nothing twice |
| Strings.StrTable.AddStringsFromMsg | tools/upbc.c:288-303 | the table grows by exactly the strings of the set fields of the message's subtree (array elements included), keeps what it held and holds nothing twice |
| Strings.StrTable.ToArray | tools/upbc.c:47-57 | the array holds exactly the table's entries, `count` of them |
| Strings.SortEntries | tools/upbc.c:420-423 | the result is sorted by `upb_strcmp` and is a permutation of the entries |
| Strings.SortedUnique | tools/upbc.c:422-423 | two sorted permutations of the same entries are equal, so any correct sort gives this order |
| Strings.SortedPoolDeterministic | tools/upbc.c:414-423 | the pool order depends only on the set of strings, not on the table's iteration order, and is strictly increasing |
| Strings.AssignOffsets | tools/upbc.c:428-441 | entry `i` gets `num == i` and offset equal to the total length of the entries before it; `strdata` is their concatenation |
| Strings.OffsetsChain | tools/upbc.c:431-440 | each offset is the previous offset plus the previous entry's length |
| Strings.ContentsPlaced | tools/upbc.c:433-440 | every entry's content sits in `strdata` at its offset |
| Strings.ConcatAt | tools/upbc.c:433-440 | the `k`-th string sits in the concatenation right after the strings before it |
| Strings.FindString | tools/upbc.c:527-528 | a hit names an entry with that content; a miss happens exactly when no entry has it |
| Types.FindKey | tools/upbc.c:315 | the first bucket with the name, or -1 exactly when there is none |
| Types.TypeTable.constructor | tools/upbc.c:454-455 | the new type table is empty |
| Types.TypeTable.GetOrInsert | tools/upbc.c:310-332 | the table afterwards is the old one with the type registered; the index names the bucket with that type name |
| WalkFacts.GetOrInsertIdempotent | tools/upbc.c:313-331 | registering twice is registering once. A present name leaves the table unchanged; an absent one appends an empty bucket at the end |
| Types.TypeTable.AddValue | tools/upbc.c:334-343 | the table afterwards is the old one with the value pushed onto its type's bucket |
| WalkFacts.AddValueAppends | tools/upbc.c:337-342 | the value becomes the last of its bucket, the arrays and the other buckets are unchanged, and the size stays at least the length |
| Types.TypeTable.AddArrayRecord | tools/upbc.c:356-367 | the table afterwards is the old one with an array record pushed onto the type's bucket |
| WalkFacts.ArrayRecordAtCreation | tools/upbc.c:364-367 | the new record starts at the bucket's current value count and has the array's length; nothing else changes |
| Types.TypeTable.AddElements | tools/upbc.c:369-371 | the table afterwards is the old one with the elements pushed in order |
| Types.TypeTable.DescendElements | tools/upbc.c:373-377 | the table afterwards is the old one after walking each message element in order |
| Types.TypeTable.AddArray | tools/upbc.c:352-377 | the table afterwards is the walk of the array field: record, elements, then the elements' walks |
| Types.TypeTable.AddField | tools/upbc.c:349-382 | the table afterwards is the walk of one field: unset and string arrays skipped, arrays, singular submessages pushed then walked |
| Types.TypeTable.AddSubmsgs | tools/upbc.c:345-384 | the table afterwards is the walk of the message's fields in declaration order |
| Types.TypeTable.AddRoot | tools/upbc.c:456-463 | from an empty table, the result is the root pushed through the invented field, then walked |
| WalkFacts.ArrayStepKeeps | tools/upbc.c:356-371 | after the record and the element pushes, every array record still covers exactly its array's elements, and the table only grew |
| WalkFacts.DescendedKeeps | tools/upbc.c:373-377 | the second pass over an array keeps the bucket invariants and only appends |
| WalkFacts.WalkedMsgKeeps | tools/upbc.c:345-384 | the walk keeps the bucket invariants (distinct names, arrays contiguous and in order, sizes cover lengths) and only appends |
| WalkFacts.RecordsDisjoint | tools/upbc.c:373-375 | two arrays of one type occupy disjoint windows, in the order they were recorded |
| WalkFacts.RootAtZero | tools/upbc.c:456-463 | after the walk the root is value 0 of bucket 0, the bucket named after the root's type |
| WalkFacts.PushedBeforeDescendants | tools/upbc.c:379-381 | a singular submessage is the last value of its bucket when its own walk starts, and that walk only appends |
| Reach.RootDone | tools/upbc.c:345-384 | every message of the root's subtree is in a bucket, and every array and submessage scan made for its fields will find its target |
| Reach.DescendedDone | tools/upbc.c:373-377 | the second pass registers the subtrees of all message elements and makes their scans succeed |
| Reach.RootWithin | tools/upbc.c:345-384 | on a conforming instance whose type names are apart, message buckets hold messages of the subtree and the other buckets hold no messages |
| Reach.StringCovered | tools/upbc.c:527-528 | every string of a singular string field in the subtree is among the strings the interner collected |
| Emit.CollectOk | tools/upbc.c:495-573 | a sequence of steps succeeds exactly when every step does, with their values in order |
| Emit.CollectErr | tools/upbc.c:523-525 | a failed sequence fails with the fault of its first failing step |
| Emit.FirstArray | tools/upbc.c:536-542 | the first array record with that identity, or -1 exactly when there is none |
| Emit.ScanArrays | tools/upbc.c:536-542 | the scan loop returns the first array record with that identity, or -1 |
| Emit.FirstValue | tools/upbc.c:549-555 | the first value that is a message with that identity, or -1 exactly when there is none |
| Emit.ScanValues | tools/upbc.c:549-555 | the scan loop returns the first value that is that message, or -1 |
| Emit.ElemRefAt | tools/upbc.c:474-478 | entry `k` of the element table falls in array `i`'s window and points at value `offset + (k - start)` |
| Emit.ElemRefsLayout | tools/upbc.c:474-478 | array `i`'s elements sit in the element table from the total length of the arrays before it, pointing at values `offset + j` |
| Emit.ElementTable | tools/upbc.c:474-478 | the nested loops produce the element table |
| Emit.SumLensPrefix | tools/upbc.c:481-488 | the running sum grows by each array's length and stays within the total |
| Emit.HeaderAt | tools/upbc.c:484-488 | header `i` starts at the total length of the arrays before it and has array `i`'s length |
| Emit.HeadersLayout | tools/upbc.c:481-489 | the first header starts at 0; each next one starts where the previous one ends |
| Emit.HeaderTable | tools/upbc.c:481-489 | the loop with `cum_offset` produces the header table |
| Emit.EmitPayload | tools/upbc.c:516-562 | the initialiser of one field as the compiler computes it: unset → 0, string array → abort, string → pool index, array or submessage → bucket lookup then scan, other → literal |
| Emit.EmitRow | tools/upbc.c:498-570 | one value's row, dispatched on the kind of the field that created the bucket |
| Emit.EmitRows | tools/upbc.c:498-571 | all rows of a bucket in order, stopping at the first failure |
| Emit.EmitTables | tools/upbc.c:465-573 | all buckets' tables and rows in bucket order, stopping at the first failure |
| Dump.BuildPool | tools/upbc.c:414-441 | the pool holds each string of the instance exactly once, strictly sorted, numbered by position and laid out end to end |
| Dump.WriteMessage | tools/upbc.c:414-582 | the pool as above, and the dump equals the emission of the registry the walk from the root builds |
| Dump.PlacedAt | tools/upbc.c:364-371 | element `q` of a recorded array is the bucket's value at the record's offset plus `q` |
| Dump.HeaderResolves | tools/upbc.c:474-489 | following header `r` then element `q` reaches the bucket value equal to element `q` of array `r` |
| Dump.StrPayloadResolves | tools/upbc.c:527-530 | a string reference names the pool entry whose content is the field's string |
| Dump.ArrayPayloadResolves | tools/upbc.c:532-544 | an array reference names the field type's bucket and a record of that very array, whose window holds its elements |
| Dump.ValuePayloadResolves | tools/upbc.c:545-557 | a submessage reference names the first value of the field type's bucket that is that very message |
| Dump.PayloadFine | tools/upbc.c:516-562 | for a registered message of a conforming instance, a field's initialiser fails exactly for a set repeated string field, and then with that field's name |
| Dump.RowFine | tools/upbc.c:498-570 | a row fails exactly when it is a message with a set repeated string field |
| Dump.TypeFine | tools/upbc.c:495-573 | a bucket's data fails exactly when one of its messages has a set repeated string field; on success there is one row per value |
| Dump.TablesFine | tools/upbc.c:465-573 | the same for every bucket of the registry built from the root |
| Dump.DumpFails | tools/upbc.c:523-525 | the dump succeeds exactly when no message of the subtree has a set repeated string field; a failure names such a field |
| Dump.DumpRoot | tools/upbc.c:575-582 | a successful dump refers to the root as value 0 of the root type's C identifier; there is one table per bucket; table 0 is the one that identifier names; its row 0 is the root's own row (presence bits and payloads) |
| Dump.DumpTheorem | tools/upbc.c:414-582 | the success condition, the failure cause and the root reference together |
| Findings.AsWrittenAgrees | tools/upbc.c:376-377 | the second pass as written is defined exactly when every element is a message, and then agrees with the corrected pass |
| Findings.ScalarArrayDereferenced | tools/upbc.c:352-377 | a set repeated `int32` field is recorded, and the pass as written then reads the number as a message |

## Left out

- `main`, `write_h`, `write_const_h` and `sort_fields_in_descriptor`: these generate the header files and handle the command line. They are not part of this model.
- The C text is not modelled, because the model returns the data rather than its spelling. This covers the file prologue (392–412), the `strdata` line wrapping at column 80 (434–437), the `strings[]` initialiser text (444–449) and every `fprintf` format.
- `upb_text_printval`: scalar values are kept as values (`Literal`, `ScalarRow`) rather than printed.
- Hash-table iteration order: the string table and the type table yield entries in insertion order. After sorting, the pool does not depend on this (`Strings.SortedPoolDeterministic`). The order of the type tables in the output does depend on it.
- `realloc`, reference counting and `free`: only the allocated sizes of the value and array lists are tracked.
- `qsort` is a library call: the model sorts with an insertion sort written as a function, and `Strings.SortedUnique` shows that the result does not depend on the algorithm.
- `toupper` is locale-dependent; the model upper-cases ASCII letters only.
- Names.MemRChr: the conversion of `size_t` to `int` is taken as exact, so lengths beyond the `int` range are not modelled. The result 0 is ambiguous in the source (found at 0, or not found) and is kept so.
- Emit.EmitPayload: during emission `get_or_insert_typeentry` (534, 547) is a lookup. A missing bucket, which the source would create and then fail the scan's assertion on, is an `InternalFault`; `Dump.DumpFails` shows it does not occur.
- Object identity: the addresses the source compares are modelled by the ids of messages and arrays. Values with one id count as one object, and the scans return the first match, as the address comparisons do. No theorem assumes that ids are unique.
- Dump.DumpFails, Dump.DumpTheorem: require that no scalar or string C type name equals a message type's full name (`Reach.NamesApart`). With such a clash, scalars and messages would share one bucket, and the theorems do not cover that case.
- The abort at 523–525 writes to `stderr` and calls `exit(1)` after part of the file has been written. The model returns `Unsupported(field)` and no partial output. The message the source prints names no field: the field name in `Unsupported` is added by the model.
- Field types are reduced to three kinds (`Instance.Kind`): group fields count as submessage fields, and enum, bool and numeric fields as scalars named by their C type.
- Scalar values, float, double and bool included, are carried as opaque `Num(int)` literals. Their representation and printing are not modelled.
- Strings are Dafny `string`s, and one `char` stands for one byte. The source counts `byte_len` bytes and compares bytes, so for multi-byte UTF-8 contents its offsets and lengths differ from the model's. The pool order may differ too.
- `upb_strcmp` is not part of this model. `Strings.StrCmp` assumes its order: the first differing character decides, and a proper prefix is smaller. The sorted pool order (`Strings.SortEntries`, `Strings.SortedPoolDeterministic`) rests on that assumption.
- Instance.Msg: every message instance carries its own field list. In the source, all instances of one type share the type's definition (`msg->def`), and the row loop takes the fields from the bucket's type (`e->field->def`, line 501). The model does not require instances with one type name to agree on their fields. Its rows use each instance's own list, which matches the source whenever they agree.

## Findings

| source | as written | input that shows it | evidently intended | confidence | as-written member | corrected member |
|---|---|---|---|---|---|---|
| tools/upbc.c:376-377 | the second pass over a repeated field dereferences every element as the address of a message; only repeated string fields are skipped (line 353) | a message with a set repeated `int32` field holding one element, 7 (`Findings.ScalarArrayDereferenced`) | recurse only into elements of repeated submessage fields, as the comment at 373–375 says | medium; not executed | Findings.DescendedAsWritten | Types.TypeTable.DescendElements |

The corrected pass is `Types.Descended`, which `Types.TypeTable.DescendElements` computes. Its intended properties are proved:

- `WalkFacts.DescendedKeeps`: the pass keeps the bucket invariants and only appends;
- `Reach.DescendedDone`: it registers every element's subtree;
- `Findings.AsWrittenAgrees`: on arrays of messages it agrees with the pass as written.
