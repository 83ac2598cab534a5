# jbridge core, modelled and proved in Dafny

`jbridge.hpp` is a header-only C++ bridge to the Java Native Interface. A C++
class declared through its macros mirrors a Java class. The header computes
the JVM descriptors of the mirrored fields and methods at compile time. It
keeps JNI references inside C++ objects as tagged words. It wraps Java
arrays in two classes. This project models the four parts of that header
which hold logic, and proves what each of them promises:

- **Descriptor string algebra** (`str.dfy`, `detail.dfy`, `traits.dfy`,
  `tokenizer.dfy`). Fixed-size, NUL-terminated `std::array<char, N>` values
  are modelled as `seq<char>`, or as `array<char>` for the writers that work
  in place. The model covers:
  - concatenation that drops the left operand's terminator, and the
    `add_all` fold built on it;
  - the `find_next` substring search;
  - the `::` → `/` rewriting loops;
  - the `namespace_depth` count;
  - `to_fqcn`, the descriptor table, `fqcnify`, and the method-descriptor
    builders.
- **The JVM's descriptor grammar** (`jvms.dfy`, `descriptors.dfy`). Section
  4.3.2 (field descriptors) and section 4.3.3 (method descriptors) of The
  Java Virtual Machine Specification give the grammar, with the internal
  class names of section 4.2.1. It serves as the independent reference:
  - a parser for the grammar is proved to invert its printer;
  - every descriptor the bridge builds is proved to print the Java type that
    JNI maps the C++ type to, and to parse back to it.
- **Tagged references** (`jni.dfy`, `jniref.dfy`). The model covers:
  - `kJniTag` together with `IsEncoded`, `Encode` and `Decode`, over `bv64`;
  - the one-word class `JniObject`;
  - the `JniRef` scan that promotes or demotes every encoded word of an
    object. The object is an `array<bv64>` of its `sizeof(Tp) / 8` words.
  - The JNI global-reference table is a ghost multiset of live global
    references. The model proves that promoting then demoting leaves that
    multiset as it was.
- **Array wrappers** (`arrays.dfy`). `JPrimitiveArray` and `JObjectArray`
  are modelled as classes. The JNI array calls they use become small
  methods over a `JavaArray` class that stands for the Java array object.
  - Pinning (`Get<T>ArrayElements`) always hands out a fresh copy, which
    the JNI allows and HotSpot does.
  - Releasing with mode 0 writes the copy back.

`wrappers.dfy` holds `Option` and the `Result`/`Outcome` types that model a
thrown `std::out_of_range`.

## Model

| member | source | states |
|---|---|---|
| `Str.Arrayify` | jbridge.hpp:59-67 | the literal's storage: its chars, then one '\0'; a literal without an inner NUL is one C string whose text is the literal |
| `Str.Concat` | jbridge.hpp:49-57 | `lhs + rhs` has `I + J - 1` chars; two C strings join into one whose text is the two texts in order |
| `Str.ConcatAssociative` | jbridge.hpp:49-57 | concatenation is associative, so the grouping of a fold does not change its result |
| `Str.AddAll` | jbridge.hpp:105-108 | the right fold of `+` over C strings is one C string whose text is all their texts in order |
| `Str.TextsAppend` | jbridge.hpp:105-108 | the joined texts of two lists of arrays are the texts of the first followed by those of the second |
| `Str.FindNext` | jbridge.hpp:69-84 | no position for an empty pattern or one longer than the text; otherwise the least position `>= start` with `pos <= N - C` where the whole pattern matches, and none when there is no such position |
| `Detail.RewriteLength` | jbridge.hpp:134-160 | the rewriting of an N-char name has N minus the number of replacements chars |
| `Detail.ScopeToSlashRoundTrip` | jbridge.hpp:134-160 | for a name without '/', turning each '/' of the rewriting back into `::` gives back the name: no other char is changed, dropped or reordered |
| `Detail.SlashToScopeKeeps` | jbridge.hpp:134-160 | the reverse rewriting leaves a text without '/' as it is |
| `Detail.ScopeToSlashCountsSeparators` | jbridge.hpp:134-160 | the rewriting has one more '/' per replaced separator and no other new '/' |
| `Detail.ScopeToSlashLeavesNoScope` | jbridge.hpp:134-160 | no `::` is left in the rewriting |
| `Detail.ScopeToSlashAppend` | jbridge.hpp:134-160 | a final char other than ':' (the terminator) is copied as it is and adds no replacement |
| `Detail.ScopeToSlashKeepsAbsent` | jbridge.hpp:134-160 | a char other than '/' that is absent from the name is absent from its rewriting |
| `Detail.SplitAtScope` | jbridge.hpp:141-155 | from `prev_pos`, the rewriting is the text up to the first separator, then '/', then the rewriting after it |
| `Detail.NoScopeFrom` | jbridge.hpp:157-159 | with no separator left, the rest of the text is copied unchanged and nothing more is replaced |
| `Detail.CopyChars` | jbridge.hpp:146-148 | the copy loop appends `src[from..to]` to what is written and touches nothing past it |
| `Detail.NextScope` | jbridge.hpp:141 | `find_next` for `::` answers the first separator at or after `start_pos`, or none |
| `Detail.ScopeSearch` | jbridge.hpp:69-84 | a match of the two-char pattern is exactly a `::` at that position |
| `Detail.CopyRound` | jbridge.hpp:141-155 | one loop round writes the text up to the separator and a '/', keeps what is written a prefix of the whole rewriting, and counts one replacement |
| `Detail.CopyTail` | jbridge.hpp:157-159 | the last loop completes the rewriting exactly |
| `Detail.ReplaceScopeToSlash` | jbridge.hpp:134-160 | the destination's first slots hold the rewriting of the name (each `::` one '/', every other char kept in order); the slots after it are untouched; the `pos < prev_pos` break is never taken |
| `Detail.NamespaceToSignature` | jbridge.hpp:162-196 | the result has the input's size and holds the rewriting followed by one '\0' per replacement |
| `Detail.FirstNul` | jbridge.hpp:123-132 | the index of the first terminator, where the depth scan stops |
| `Detail.NamespaceDepth` | jbridge.hpp:123-132 | the count of positions before the first terminator where `::` starts, overlapping ones included |
| `Detail.PairsAreReplacements` | jbridge.hpp:123-160 | without a `:::` run, `namespace_depth` equals the number of replacements the rewriting makes |
| `Detail.ColonRunUndersizes` | jbridge.hpp:123-160 | with a `:::` run the two counts differ (`a:::b` gives 2 and 1) |
| `Detail.ClassSignature` | jbridge.hpp:1983-1989 | the `N - namespace_depth` destination is filled exactly: `CLASS_SIGNATURE` is the rewritten name, terminated |
| `Detail.ClassPartsTexts` | jbridge.hpp:203-213 | `"L"`, the name and `";"` join into the text `L<name>;` |
| `Detail.FqcnPartsTexts` | jbridge.hpp:203-213 | the parts `to_fqcn` joins are C strings whose texts give `L<name>;`, behind `[` for an array |
| `Detail.ToFqcn` | jbridge.hpp:203-213 | `to_fqcn<false>(n)` is `"L" ++ text(n) ++ ";\0"` and `to_fqcn<true>(n)` is `"[L" ++ text(n) ++ ";\0"` |
| `Traits.Signature` | jbridge.hpp:245-381 | every table entry is a terminated descriptor of at least one letter |
| `Traits.Fqcnify` | jbridge.hpp:955-962 | a mirror's descriptor is `to_fqcn` of its `CLASS_SIGNATURE`, any other type's is its table entry; either is a C string |
| `Traits.PrimArrayIsBracketed` | jbridge.hpp:289-345 | each primitive-array type's descriptor is its element's behind a single `[` |
| `Tokenizer.TextsOfDescriptors` | jbridge.hpp:1132-1135 | joining the parameters' descriptor arrays gives their texts in declared order |
| `Tokenizer.ParamPartsTexts` | jbridge.hpp:1132-1135 | `(`, the parameter descriptors and `)` are C strings whose texts join in that order |
| `Tokenizer.BuildParamSignature` | jbridge.hpp:1132-1135 | `"(" ++ desc(P1) ++ … ++ desc(Pn) ++ ")"`, terminated |
| `Tokenizer.BuildReturnSignature` | jbridge.hpp:1137-1140 | the return type's descriptor |
| `Tokenizer.FunctionPartsTexts` | jbridge.hpp:1142-1145 | the parameter part and the return descriptor join into one C string |
| `Tokenizer.BuildFunctionSignature` | jbridge.hpp:1142-1145 | `"(" ++ desc(P1) ++ … ++ desc(Pn) ++ ")" ++ desc(R)`, terminated |
| `Jvms.BaseOf` | jbridge.hpp:245-287 | reference grammar checked against these lines: a letter names a base type exactly when it is that type's letter in the grammar of field descriptors |
| `Jvms.ParseField` | jbridge.hpp:955-962 | reference grammar checked against these lines: a parsed field descriptor is well formed and printing it gives back the consumed prefix |
| `Jvms.ParseParameters` | jbridge.hpp:1132-1135 | reference grammar checked against these lines: a parsed parameter list is well formed and printing it gives back the text up to `)` |
| `Jvms.ParseReturn` | jbridge.hpp:1137-1140 | reference grammar checked against these lines: a parsed return descriptor is `V` or a well-formed field descriptor, and printing it gives back the consumed prefix |
| `Jvms.ParseMethod` | jbridge.hpp:1142-1145 | reference grammar checked against these lines: a parsed method descriptor is well formed and prints as exactly the parsed text |
| `Jvms.DescriptorStart` | jbridge.hpp:1132-1145 | reference grammar checked against these lines: no field descriptor starts with `)` or `V`, so a parameter list's end and the void return are never mistaken for a parameter |
| `Jvms.ParseFieldComplete` | jbridge.hpp:955-962 | reference grammar checked against these lines: every well-formed field descriptor, whatever follows it, is parsed back to its type |
| `Jvms.ParseParametersComplete` | jbridge.hpp:1132-1135 | reference grammar checked against these lines: every well-formed parameter list, followed by `)`, is parsed back |
| `Jvms.ParseMethodComplete` | jbridge.hpp:1142-1145 | reference grammar checked against these lines: every well-formed method descriptor is parsed back |
| `Jvms.ParseMethodExactly` | jbridge.hpp:1142-1145 | reference grammar checked against these lines: a text parses to `m` if and only if `m` is well formed and the text is `m`'s descriptor |
| `Jvms.ParseFieldExactly` | jbridge.hpp:955-962 | reference grammar checked against these lines: a text parses to `t` with nothing left if and only if `t` is well formed and the text is `t`'s descriptor |
| `Descriptors.StringClassIsValid` | jbridge.hpp:367-381 | `java/lang/String` is a valid internal class name |
| `Descriptors.FqcnifyIsDescriptor` | jbridge.hpp:955-962 | every type's descriptor text is the JVM descriptor of the Java type JNI maps it to |
| `Descriptors.TableIsDescriptor` | jbridge.hpp:245-381 | the table gives `V`, the base-type letters, one `[` before them for arrays, and `Ljava/lang/String;` for strings |
| `Descriptors.MirrorIsDescriptor` | jbridge.hpp:203-213 | `to_fqcn` gives the object-type descriptor of a mirror, or the array-of-object descriptor |
| `Descriptors.FqcnifyParses` | jbridge.hpp:955-962 | the JVM parses each non-void descriptor back to its Java type, with nothing left over |
| `Descriptors.DescriptorTextsAreParameterText` | jbridge.hpp:1132-1135 | the joined parameter descriptors are the parameter part of a method descriptor |
| `Descriptors.FunctionSignatureIsMethodDescriptor` | jbridge.hpp:1142-1145 | `build_function_signature<R, Ps...>` is the method descriptor of the Java method taking the `Ps` in declared order and returning `R` |
| `Descriptors.FieldTypeWellFormed` | jbridge.hpp:955-962 | the Java type of every non-void type with a valid class name is a well-formed field type |
| `Descriptors.FunctionSignatureParses` | jbridge.hpp:1142-1145 | the JVM parses that method descriptor back to exactly those parameter and return types |
| `Jni.IsEncoded` | jbridge.hpp:1367-1369 | a word is encoded exactly when setting the tag bits leaves it as it is; the null word is not encoded |
| `Jni.Encode` | jbridge.hpp:1371-1374 | the result is always encoded, and an encoded word is left as it is, so encoding is idempotent |
| `Jni.Decode` | jbridge.hpp:1376-1379 | only the tag bits are cleared |
| `Jni.DecodeEncode` | jbridge.hpp:1365-1379 | decoding undoes encoding exactly for words with no tag bit set; any other word loses its tag bits |
| `Jni.EncodeDecode` | jbridge.hpp:1365-1379 | encoding undoes decoding exactly for encoded words |
| `Jni.NullIsPlain` | jbridge.hpp:1365-1379 | 0 is not encoded, and it decodes to null before and after encoding |
| `Jni.JniObject.Default` | jbridge.hpp:1385 | the default object stores 0, and `Get()` is null |
| `Jni.JniObject.FromPointer` | jbridge.hpp:1387 | the pointer is stored encoded |
| `Jni.JniObject.Copy` | jbridge.hpp:1389 | the copy's `Get()` is the source's, and its word is encoded even when the source's was the default 0 |
| `Jni.JniObject.Assign` | jbridge.hpp:1391-1402 | self-assignment changes nothing; otherwise as the copy constructor |
| `Jni.JniObject.Get` | jbridge.hpp:1405-1407 | the stored word with the tag bits cleared, and only them |
| `Jni.JniObject.Set` | jbridge.hpp:1409-1411 | `Set(p)` stores `p` encoded, and `Get()` then yields `p & ~tag` |
| `JniRef.Env.NewGlobalRef` | jbridge.hpp:1443 | the JNI call the callback makes: null for null; otherwise a tag-free reference that becomes live, or null (out of memory) with nothing becoming live |
| `JniRef.Env.DeleteGlobalRef` | jbridge.hpp:1451 | the reference is no longer live; null is ignored |
| `JniRef.HeldRefsStep` | jbridge.hpp:1430-1435 | the references a word prefix holds grow by the next word's |
| `JniRef.HeldRefsPrefix` | jbridge.hpp:1430-1435 | a shorter prefix holds no reference a longer one does not |
| `JniRef.ScanOffset` | jbridge.hpp:1422-1430 | the scan visits offsets `0, 8, …` with `off + 8 <= sizeof(Tp)`: exactly `sizeof(Tp) / 8` words |
| `JniRef.PromoteWord` | jbridge.hpp:1441-1445 | an encoded word becomes `Encode(NewGlobalRef(Decode(w)))`, stays encoded and stays null when it was null (it becomes null when `NewGlobalRef` fails); any other word and every other slot is left as it was |
| `JniRef.DemoteWord` | jbridge.hpp:1449-1453 | the reference an encoded word holds is deleted |
| `JniRef.PromotedStep` | jbridge.hpp:1430-1435 | one turn of the scan extends what the scan has done by one word |
| `JniRef.PromoteScanStep` | jbridge.hpp:1430-1445 | one turn of the `Promote` scan: the word is promoted when encoded, and the new references are those of the scanned words |
| `JniRef.Promote` | jbridge.hpp:1427-1446 | only whole words are scanned; encoded words stay encoded and null ones null; other words and the tail are unchanged; the new global references are exactly those the object now holds |
| `JniRef.DemoteScanStep` | jbridge.hpp:1430-1453 | one turn of the `Demote` scan deletes the reference the word holds |
| `JniRef.DemoteStepRefs` | jbridge.hpp:1449-1453 | the reference of the next word is still live, and deleting it leaves the first `k + 1` words' references deleted |
| `JniRef.RemoveInTurn` | jbridge.hpp:1448-1454 | deleting one batch of references and then another deletes both |
| `JniRef.Demote` | jbridge.hpp:1427-1454 | the object is not written; the global references deleted are exactly those it holds |
| `JniRef.PromoteThenDemote` | jbridge.hpp:1440-1454 | promoting and then demoting deletes exactly the references the promotion created |
| `Arrays.JSize` | jbridge.hpp:1244 | `static_cast<jsize>` of a `size_t`: a `jint` congruent to the length modulo 2^32, equal to it when it fits a Java array |
| `Arrays.JSizeWraps` | jbridge.hpp:1244 | 2^32 + 5 becomes 5 and 2^31 becomes negative |
| `Arrays.NewPrimitiveArray` | jbridge.hpp:1241-1269 | null exactly when the length cast to `jsize` is negative; otherwise a new Java array of the cast length |
| `Arrays.GetArrayElements` | jbridge.hpp:1271-1300 | a fresh native buffer holding the Java array's elements |
| `Arrays.ReleaseArrayRegion` | jbridge.hpp:1302-1330 | the buffer is written back to the Java array (mode 0) |
| `Arrays.CopyElements` | jbridge.hpp:1731-1733 | the copy loop copies the first `size_` elements |
| `Arrays.JPrimitiveArray.WithCapacity` | jbridge.hpp:1709-1714 | a new Java array of the capacity cast to `jsize` elements (the capacity itself when it fits a Java array), pinned; the wrapper sees its elements |
| `Arrays.JPrimitiveArray.Wrap` | jbridge.hpp:1716-1723 | an existing Java array, pinned; the wrapper sees its elements and its length |
| `Arrays.JPrimitiveArray.CopyAsWritten` | jbridge.hpp:1725-1737 | a fresh Java array holding what the source's Java array holds; the source's Java array is left as it was |
| `Arrays.JPrimitiveArray.Copy` | jbridge.hpp:1725-1737 | a fresh, independent Java array whose wrapper sees exactly the source's elements |
| `Arrays.JPrimitiveArray.Move` | jbridge.hpp:1761-1768 | takes over the source's array, buffer and size; the source has size 0 and no buffer |
| `Arrays.JPrimitiveArray.MoveAssign` | jbridge.hpp:1770-1787 | self-assignment changes nothing; otherwise this wrapper's buffer is written back, then it takes over the source, which is left with size 0 and no buffer |
| `Arrays.JPrimitiveArray.Release` | jbridge.hpp:1846-1851 | `~JPrimitiveArray` (jbridge.hpp:1789-1791) calls it: a held buffer is written back and dropped; with no buffer nothing changes, so releasing twice is releasing once |
| `Arrays.JPrimitiveArray.Get` | jbridge.hpp:1801-1817 | `out_of_range` exactly when `index >= size_`; otherwise the element at `index` |
| `Arrays.JPrimitiveArray.Set` | jbridge.hpp:1819-1825 | `out_of_range` exactly when `index >= size_`; otherwise that one element becomes `element` and nothing else changes |
| `Arrays.JPrimitiveArray.Size` | jbridge.hpp:1827-1830 | the number of elements the wrapper sees |
| `Arrays.CopyMissesPendingSet` | jbridge.hpp:1725-1737 | after `Set(0, 7)` on a wrapper of `[0]`, the copy as written holds `[0]`; the corrected copy holds `[7]`, what the source sees |
| `Arrays.CopyIsIndependent` | jbridge.hpp:1725-1737 | a `Set` on a copy leaves the source's elements as they were |
| `Arrays.JObjectArray.Wrap` | jbridge.hpp:1877-1882 | the size is the Java array's length |
| `Arrays.JObjectArray.Copy` | jbridge.hpp:1884-1888 | the copy shares the source's Java array, size and class |
| `Arrays.JObjectArray.CopyAssign` | jbridge.hpp:1890-1901 | this wrapper comes to share the source's Java array, size and class |
| `Arrays.JObjectArray.GetAsRaw` | jbridge.hpp:1915-1922 | `out_of_range` exactly when `index >= size_`; otherwise the Java array's element at `index` |
| `Arrays.JObjectArray.Set` | jbridge.hpp:1924-1931 | `out_of_range` exactly when `index >= size_`; otherwise that element of the Java array is replaced and nothing else changes |
| `Arrays.JObjectArray.Size` | jbridge.hpp:1933-1936 | the element count, at most the Java array's length |
| `Arrays.CopySharesElements` | jbridge.hpp:1884-1888 | a `Set` through a copy is seen through the original |

## Left out

- Thread attachment is left out: `GetEnv` with its `thread_local` attach and detach (jbridge.hpp:1158-1175). The `std::mutex` locks of both array wrappers are left out too. Every operation is modelled as sequential, and the `JNIEnv*` is implicit.
- The `jni_field` and `jni_call` dispatch tables are left out, as are `JObjectify`, `Validfy`, `MakeGlobalRef`, `BaseClass`, `Constructor`, `Method`, `Field` and the `Create*` helpers. They are one-line forwards to JNI functions, with no logic of their own.
- `NewPrimitiveArray`, `GetArrayElements` and `ReleaseArrayRegion` are modelled only by their effect, not by their per-type dispatch. The zero values of a new Java array are not modelled: element values are abstract. A null result of `New<T>Array` when the virtual machine is out of memory is not modelled.
- `Arrays.JPrimitiveArray.WithCapacity` requires a capacity whose `jsize` cast is not negative. For any other capacity, `New<T>Array` returns null and the constructor pins a null array, which the JNI leaves undefined.
- `Arrays.JPrimitiveArray.Wrap` requires a Java array of at most `MaxLength` elements, which every Java array is.
- `Arrays.JObjectArray.GetAsRaw` returns the stored handle. `GetObjectArrayElement` returns a new local reference to the same object, not the stored word; the model identifies a reference with the object it names.
- Floating-point element values are abstract: `JPrimitiveArray` is generic over the element type.
- `primitive_wrap` (the boxed class names, jbridge.hpp:939-952) is not used by `fqcnify`, and is not modelled.
- The function-local `static` caches and the `JBRIDGE_DEFINE_*` macros are left out. Only the `CLASS_SIGNATURE` initialiser is modelled, as `Detail.ClassSignature`. `example.cpp` is not part of this model.
- `shrink_array` and `expand` are unused and not modelled. `shrink_array` writes `N` elements into an `N - D` array.
- `JPrimitiveArray`'s default constructor leaves `env_` and `elements_` uninitialised, so it is not modelled.
- `JPrimitiveArray`'s copy assignment (jbridge.hpp:1739-1759) is not modelled. It releases `o.elements_` instead of `other_elements`. That frees `o`'s buffer while `o` keeps the pointer, and leaks the second pin: undefined behaviour.
- `operator[]` of `JPrimitiveArray` returns a reference to a temporary, so it is not modelled; `Get` is.
- `begin`/`end` expose the raw buffer; `Contents()` stands for the range they span.
- `Raw()` of both wrappers returns the Java array. It is the field `javaArray` here.
- `JObjectArray`'s size and default constructors are not modelled. They read `class_` before it is initialised, because `array_` is declared first.
- `JObjectArray::Get` and `operator[]` wrap `GetAsRaw`'s reference in the mirror class, whose constructor is not part of this model. `GetAsRaw` is modelled.
- `JObjectArray`'s `env_` is not modelled. Its class handle is whatever `FindClass` returned, passed in as a parameter.
- `Detail.ClassSignature` requires a name with no `:::` run. Every name the class macro builds from a namespace and an identifier has none. With such a run, `namespace_depth` overcounts (`Detail.ColonRunUndersizes`), the destination is one char short, and the constant expression does not compile.
- `Detail.ReplaceScopeToSlash` requires a destination long enough for the rewriting. A shorter one is an out-of-bounds write in the source.
- `Detail.NamespaceDepth` requires a terminator in the array, which every `arrayify`d literal has.
- `Detail.NamespaceToSignature`: the replacement counter it keeps is not returned, and the result is stated through it.
- `JniRef.Env.NewGlobalRef` is the JNI function. Its body stands in for the virtual machine. It requires a tag-free handle, which is what `Decode` always passes. Its contract assumes the reference it returns has no tag bit set (a user-space address), which `Jni.DecodeEncode` and `JniRef.Demote` rely on.
- `JniRef.Promote`: when `NewGlobalRef` fails for a live reference, the source stores an encoded null and the reference is lost to the object. The model allows this and does not flag it.
- `JniRef.Env` stands for the `JNIEnv` that `GetEnv()` returns (jbridge.hpp:1428). Its table of global references is whatever it holds when a scan starts; its constructor is a stand-in with no counterpart in the source.
- `JniRef.Promote` treats every word with all the tag bits set as a reference, as the source does. A plain data word that happens to carry the tag pattern would be passed to `NewGlobalRef`. This is not checked.
- Descriptors for `void` parameters are built but are not valid JVM descriptors. The descriptor lemmas require `NoVoid`.
- The JVM limit of 255 array dimensions and its limits on name length are not modelled.
- The `bool` results of `jni_call` for byte, char, short, int, long, float and double (e.g. jbridge.hpp:597, 723) are left out with the dispatch tables.

## Findings

| source | as written | input that shows it | evidently intended | confidence | as-written member | corrected member |
|---|---|---|---|---|---|---|
| jbridge.hpp:1725-1737 | the copy constructor pins `o`'s Java array a second time and copies from that pin. Under copy-semantics pinning this is the Java array's content, not what `o` sees. | a `JPrimitiveArray` over the Java array `[0]`, then `Set(0, 7)` with no release, then a copy: the copy holds `[0]`, while the source sees `[7]` | the copy holds the elements the source sees (a deep copy of `o`), e.g. by copying from `o.elements_` | not executed; holds when `Get<T>ArrayElements` returns a copy, as HotSpot's does | `Arrays.JPrimitiveArray.CopyAsWritten`, exhibited by `Arrays.CopyMissesPendingSet` | `Arrays.JPrimitiveArray.Copy` |
