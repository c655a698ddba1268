# SPIR-V physical-storage-buffer patcher, modelled in Dafny

This project models the word-buffer patcher of `sample.cpp`. The patcher takes
a parsed SPIR-V module and works on a copy of its 32-bit words. It switches the
addressing model of `OpMemoryModel` from Logical to PhysicalStorageBuffer64. It
inserts `OpExtension "SPV_KHR_physical_storage_buffer"` at the extensions
offset and `OpCapability PhysicalStorageBufferAddresses` at the capabilities
offset. It then looks up a source line among the file's debug line markers.
The patched words are written out only when that lookup finds a marker.

Four modules, one per component:

- `Words` (`words.dfy`): `ceilDivide`, the instruction header
  `(wordCount << 16) | opcode` (section 2.3 of the SPIR-V specification),
  whole instructions, the splice that `std::vector::insert` performs, and the
  packing of a literal string four characters per word, little-endian and
  zero-padded (section 2.2.1 of the SPIR-V specification). It also holds
  the lemmas about these.
- `Encoder` (`encoder.dfy`): `InstrBuilder` as a class. `vals` is a `seq`
  field with its reserved header slot, and `Push`, `PushString` and `Insert`
  update it in place. The destination `std::vector<u32>` is a `WordBuffer`
  object, which `Insert` grows in place.
- `Locator` (`locator.dfy`): the `std::lower_bound` lookup as a binary
  search. It is proved equal to a reference definition (`FirstAtLeast`) and
  classified as not found, inexact or exact.
- `Patcher` (`patcher.dfy`): `outputPatched` as an imperative method over a
  fresh copy of the module's words. It is proved to produce `PatchedWords`,
  with lemmas on why the insertion order (extensions first, then
  capabilities) keeps the cached offsets valid.

Words are `u32` integers. Every bitwise OR in the encoder combines values
that occupy disjoint bit ranges: the opcode sits below bit 16, and each
character has its own byte lane. So every OR is modelled as the sum it equals.
The parsed module is a datatype value, so `ir.spirv` is never changed. The
only thing the patch changes is its own `WordBuffer` copy.

`insert` clears `vals`, the reserved header slot included (sample.cpp:129),
so the builder is one-shot. `Insert` requires the slot to be present, and its
contract shows that a later push-then-insert would overwrite the first
operand with the header.

## Model

| member | source | states |
|---|---|---|
| `Words.CeilDivide` | sample.cpp:51-53 | the 32-bit `(num + denom - 1) / denom`, wrapping included; the result is never above the unwrapped quotient |
| `Words.CeilDivideIsLeast` | sample.cpp:50-53 | when the sum does not wrap, the result `q` is the least with `q * denom >= num` (ceiling division) |
| `Words.CeilDivideWrapsNearMax` | sample.cpp:51-53 | as written, `ceilDivide(0xFFFFFFFF, 4)` is 0 where the ceiling is 0x40000000 |
| `Words.CeilDivideExact` | sample.cpp:50-53 | corrected ceiling division: the least `q` with `q * denom >= num`, for every `u32` input |
| `Words.CeilDivideAgrees` | sample.cpp:51-53 | as-written and corrected ceiling division agree whenever the sum does not wrap |
| `Words.CeilDivideWordAligned` | sample.cpp:85-87 | for a size that is a multiple of 4, as `readFile` asserts before calling it, `ceilDivide(size, 4)` does not wrap and is exactly `size / 4` |
| `Words.Header` | sample.cpp:127 | low 16 bits of the header are the opcode; high 16 bits are the word count modulo 2^16 |
| `Words.Encode` | sample.cpp:126-128 | an instruction is `1 + operandCount` words: the operands in push order after a header whose opcode field is the opcode and whose count field is the instruction's length |
| `Words.Splice` | sample.cpp:128 | after insertion at `off`: length grows by the instruction's size, words before `off` unchanged, the instruction at `off`, old `dst[off..]` moved up by the instruction's size |
| `Words.SpliceDescending` | sample.cpp:167-175 | inserting at the higher offset first and then at the lower one gives old prefix, first instruction, middle words, second instruction, old suffix |
| `Words.SpliceDescendingSecond` | sample.cpp:167-175 | with descending-order insertion, the instruction inserted first, at the higher offset, ends up shifted by the size of the second one |
| `Words.SpliceAscendingStale` | sample.cpp:167-175 | inserting at the lower offset first and then at the higher offset taken beforehand puts the second instruction's header at that offset, early by the first instruction's length; one such length further on, where the descending order has the second instruction's header, the ascending order has the second instruction's word whose index is the first instruction's length |
| `Words.SpliceDescendingAt` | sample.cpp:167-175 | with descending-order insertion, a word at or after the higher offset moves up by the sizes of both instructions |
| `Words.PackedWord` | sample.cpp:142-145 | one loop step of the string push: the character at `i` is the low byte of the word |
| `Words.WordsFor` | sample.cpp:141 | the loop over `i = 0, 4, 8, ...` runs ceil(n / 4) times: `4k - 4 < n <= 4k` |
| `Words.PackString` | sample.cpp:140-150 | the words a string push appends: ceil(len / 4) of them, word `k` carrying character `4k` in its low byte |
| `Words.PackedWordByte` | sample.cpp:141-147 | byte `j` of the word packed at `base` is character `base + j`, or zero past the end of the text |
| `Words.PackStringLayout` | sample.cpp:140-150 | string push yields ceil(len / 4) words; character `i` sits in byte `i % 4` of word `i / 4` and every later byte is zero |
| `Words.PackStringRoundTrip` | sample.cpp:140-150 | for ASCII text without NUL, unpacking the words and trimming trailing NULs gives the text back |
| `Encoder.WordBuffer.constructor` | sample.cpp:158 | the copy starts as exactly the module's words |
| `Encoder.InstrBuilder.constructor` | sample.cpp:122-123 | a new draft has its opcode and only the reserved header slot, no operands |
| `Encoder.InstrBuilder.Push` | sample.cpp:132-138 | appends exactly one word equal to the value; opcode and earlier words unchanged |
| `Encoder.InstrBuilder.PushString` | sample.cpp:140-150 | the loop appends exactly the packed words of the text, in order, after the existing words |
| `Encoder.InstrBuilder.Insert` | sample.cpp:125-130 | the buffer becomes the old buffer with the header and pushed operands spliced in at `off`; the draft is left empty, as the destructor asserts (sample.cpp:152-154) |
| `Locator.FirstAtLeast` | sample.cpp:180-184 | reference lower bound: an index at most the length, every earlier marker's line below the target, the marker at the index (if any) at or above it |
| `Locator.FirstAtLeastUnique` | sample.cpp:180-184 | any index that splits the markers into below and at-or-above the target is the lower bound |
| `Locator.FirstAtLeastPartition` | sample.cpp:180-184 | on sorted markers, every marker from the lower bound on is at or above the target |
| `Locator.FirstDuplicateChosen` | sample.cpp:183-192 | with duplicate lines, the lower bound is the first marker at the target line and no earlier marker has that line |
| `Locator.LowerBound` | sample.cpp:180-184 | the binary search returns the first index whose line is at least the target; all earlier lines are below it and all later ones are not |
| `Locator.LocateLine` | sample.cpp:177-192 | not found exactly when every marker is below the line; otherwise the lower-bound marker, flagged exact exactly when its line equals the target |
| `Locator.LookupExample` | sample.cpp:180-192 | markers at lines 5, 10, 10, 20: line 10 gives the first 10, line 7 gives that same marker inexactly, line 25 gives none |
| `Patcher.ExtensionNameIsAscii` | sample.cpp:169 | the 31-character extension name is all below 0x80 |
| `Patcher.ExtensionNameWordsLow` | sample.cpp:169 | the first four packed words of the extension name: "SPV_", "KHR_", "phys", "ical" |
| `Patcher.ExtensionNameWordsHigh` | sample.cpp:169 | the last four packed words: "_sto", "rage", "_buf", and "fer" followed by a NUL byte |
| `Patcher.ExtensionInstructionEncodes` | sample.cpp:167-170 | the name packs into ceil(31 / 4) = 8 words; with `OpExtension` they encode to the nine words of `ExtensionInstruction`, header 0x0009000A |
| `Patcher.CapabilityInstruction` | sample.cpp:172-175 | the capability instruction is the two words 0x00020011 and 5347 |
| `Patcher.WithPhysicalAddressing` | sample.cpp:160-165 | the addressing operand after `memModel` becomes PhysicalStorageBuffer64 and no other word changes |
| `Patcher.OffsetsInRange` | sample.cpp:157-175 | offsets in range meet the `insert` bound of sample.cpp:126 at both calls: `exts` within the words after the addressing step, `caps` within the words after the extension insertion; and `memModel + 1` indexes a word |
| `Patcher.PatchedWords` | sample.cpp:157-175 | the patched words are longer than the module by the two instructions, 2 + 9 = 11 words |
| `Patcher.AddExtension` | sample.cpp:167-170 | building, pushing the name and inserting splices exactly `ExtensionInstruction` into the copy at `off` |
| `Patcher.AddCapability` | sample.cpp:172-175 | building, pushing the capability and inserting splices exactly the two-word capability instruction into the copy at `off` |
| `Patcher.OutputPatched` | sample.cpp:157-229 | no output exactly when no marker is at or after the line; otherwise the output is `PatchedWords(ir)`, together with the lower-bound marker's function and the exact flag |
| `Patcher.PhysicalAddressingIdempotent` | sample.cpp:161-165 | the addressing step is idempotent, and leaves the words alone when the mode is already PhysicalStorageBuffer64 |
| `Patcher.DescendingInsertionKeepsOffsets` | sample.cpp:167-175 | with `caps <= exts`, the output is the old prefix, the capability instruction at `caps`, the old words up to `exts`, the extension instruction, and the old suffix |
| `Patcher.PatchedLayout` | sample.cpp:167-175 | with `caps <= exts`, the capability instruction starts at `caps` and the extension instruction at `exts + 2` |
| `Patcher.MemoryModelAfterPatch` | sample.cpp:160-175 | with `caps <= exts <= memModel`, the memory-model instruction moves up 11 words and carries PhysicalStorageBuffer64 |
| `Patcher.AscendingWords` | sample.cpp:167-175 | the counterfactual ascending-order patch also adds 11 words |
| `Patcher.AscendingInsertionIsStale` | sample.cpp:167-175 | inserting in ascending order with the cached offset puts the extension header at `exts`, two words early, so the word at `exts + 2` differs from the real output |

## Findings

| source | as written | input that shows it | evidently intended | confidence | as-written member | corrected member |
|---|---|---|---|---|---|---|
| sample.cpp:51-53 | `(num + denom - 1) / denom` in `unsigned` arithmetic; the sum wraps past 2^32 | `num = 0xFFFFFFFF`, `denom = 4` gives 0 | ceil(num / denom) = 0x40000000, as the comment on line 50 says | not executed; certain for the function. `readFile` (line 87) reaches it only with assertions compiled out, since line 85 asserts a multiple of 4, which never wraps (`Words.CeilDivideWordAligned`), and then only for sizes 1 to 3 below a multiple of 2^32 | `Words.CeilDivideWrapsNearMax` | `Words.CeilDivideExact` |

## Left out

- `readFile` and `writeFile` (sample.cpp:55-119) do C stdio file I/O, which is not modelled. `Patched.output` holds the words that would be handed to `writeFile`. A failed or short write is not modelled.
- `ScopeGuard` (sample.cpp:13-48) is about exception unwinding, and it is unused.
- The SPIRV-Cross parser and the internals of `ParsedIR` (sample.cpp:1-2, 235-237) are not part of this model. The parsed module is an input value carrying the words, the three section offsets and the sources' line markers.
- `get_name` and the `printf` diagnostics (sample.cpp:186-201) are left out. The outcome carries the resolved `Function` (its id and its local-variable ids) and the exact/inexact flag, not the names.
- `main` (sample.cpp:231-240) is plumbing. Its fixed arguments, file 0 and line 20, are parameters of `OutputPatched`.
- The commented-out instrumentation plan (sample.cpp:203-226) is not implemented in the source.
- The `assert`s become `requires` clauses: `dst.size() >= off` (sample.cpp:126), an addressing model of Logical or PhysicalStorageBuffer64 (sample.cpp:163), and `file < ir.sources.size()` (sample.cpp:178). The capability offset only needs to be within the buffer after the extension is inserted (nine more words), as in the code.
- `assert(lb->function)` (sample.cpp:194) is not modelled, because every `LineMarker` here carries its owning function.
- Encoder.InstrBuilder.PushString: restricted to characters below 0x80. For other bytes, `char` promotion sign-extends (on platforms where `char` is signed) and corrupts the higher bytes of the word. The 32-bit loop counter, which would wrap for texts near 2^32 characters, is also not modelled.
- Encoder.InstrBuilder.Push: takes a `u32` word. The `u32(val)` conversion of a signed or enum value is the caller's, and the compile-time width check is implicit in the type.
- Words.Header: opcodes are 16-bit values. An opcode of 2^16 or more, which the code would OR into the count field, is outside the model.
- Re-running the patch on an already patched module leaves the addressing model unchanged (`PhysicalAddressingIdempotent`). It does add a second extension and a second capability instruction, 11 more words each time (`PatchedWords`). The source does no deduplication, and neither does the model.
- For a text whose length is a multiple of 4, `PushString` appends no extra NUL word, so the model does not claim full conformance with section 2.2.1 of the SPIR-V specification. The 31-character extension name does end in a NUL byte (`ExtensionNameWordsHigh`).
- Section offsets are unbounded naturals rather than `u32`. The model checks them only against the buffer length.
