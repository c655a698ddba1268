/** The patch orchestrator `outputPatched`: on a copy of the parsed module it
    switches the addressing model to PhysicalStorageBuffer64, inserts
    `OpExtension "SPV_KHR_physical_storage_buffer"` and
    `OpCapability PhysicalStorageBufferAddresses`, and then looks up the
    requested source line; the patched words are produced for writing only
    when that line is found. */
module Patcher {
  import opened Words
  import opened Encoder
  import opened Locator

  // Enumerant values from section 3 of the SPIR-V specification.
  const OpExtension: Opcode := 10
  const OpCapability: Opcode := 17
  const AddressingModelLogical: u32 := 0
  const AddressingModelPhysicalStorageBuffer64: u32 := 5348
  const CapabilityPhysicalStorageBufferAddresses: u32 := 5347

  /** The extension whose capability the patch declares. */
  const ExtensionName: string := "SPV_KHR_physical_storage_buffer"

  /** The word offsets of the capability, extension and memory-model
      sections, as the parser computed them on the unpatched words. */
  datatype SectionOffsets = SectionOffsets(caps: nat, exts: nat, memModel: nat)

  /** The parsed module: its words, its section offsets and its source files. */
  datatype ParsedIR = ParsedIR(spirv: seq<u32>, offsets: SectionOffsets, sources: seq<SourceFile>)

  /** What `outputPatched` ends with: either no marker at or after the line
      (nothing is written), or the words handed to `writeFile` together with
      the function the line resolved to and whether the match was exact. */
  datatype PatchOutcome =
    | NoMatchingLine
    | Patched(output: seq<u32>, exact: bool, owner: Function)

  /** Every character of the extension name is below 0x80. */
  lemma ExtensionNameIsAscii()
    ensures IsAscii(ExtensionName) && |ExtensionName| == 31
  {
    forall i | 0 <= i < |ExtensionName| ensures ExtensionName[i] < 0x80 as char {
    }
  }

  /** The extension name packed into words: "SPV_", "KHR_", "phys", "ical",
      "_sto", "rage", "_buf" and "fer" followed by a NUL byte, so the literal
      is NUL-terminated. */
  const ExtensionNameWords: seq<u32> :=
    [0x5F56_5053, 0x5F52_484B, 0x7379_6870, 0x6C61_6369,
     0x6F74_735F, 0x6567_6172, 0x6675_625F, 0x0072_6566]

  /** The instruction `OpExtension "SPV_KHR_physical_storage_buffer"`: the
      header (word count 9, opcode 10) and the packed name. */
  const ExtensionInstruction: seq<u32> := [0x0009_000A] + ExtensionNameWords

  /** The first four words of the packed extension name. */
  lemma ExtensionNameWordsLow()
    ensures IsAscii(ExtensionName)
    ensures PackedWord(ExtensionName, 0) == ExtensionNameWords[0]
    ensures PackedWord(ExtensionName, 4) == ExtensionNameWords[1]
    ensures PackedWord(ExtensionName, 8) == ExtensionNameWords[2]
    ensures PackedWord(ExtensionName, 12) == ExtensionNameWords[3]
  {
    ExtensionNameIsAscii();
  }

  /** The last four words of the packed extension name. */
  lemma ExtensionNameWordsHigh()
    ensures IsAscii(ExtensionName)
    ensures PackedWord(ExtensionName, 16) == ExtensionNameWords[4]
    ensures PackedWord(ExtensionName, 20) == ExtensionNameWords[5]
    ensures PackedWord(ExtensionName, 24) == ExtensionNameWords[6]
    ensures PackedWord(ExtensionName, 28) == ExtensionNameWords[7]
  {
    ExtensionNameIsAscii();
  }

  /** What the builder produces for the extension: the name packs into
      ceil(31 / 4) = 8 words, and encoding them with `OpExtension` gives
      exactly `ExtensionInstruction`. */
  lemma ExtensionInstructionEncodes()
    ensures IsAscii(ExtensionName)
    ensures PackString(ExtensionName) == ExtensionNameWords
    ensures |ExtensionNameWords| == CeilDivideExact(|ExtensionName|, 4)
    ensures Encode(OpExtension, PackString(ExtensionName)) == ExtensionInstruction
  {
    ExtensionNameIsAscii();
    ExtensionNameWordsLow();
    ExtensionNameWordsHigh();
    var words := PackString(ExtensionName);
    assert |words| == 8;
    assert words == ExtensionNameWords by {
      forall k | 0 <= k < 8 ensures words[k] == ExtensionNameWords[k] {
        assert words[k] == PackedWord(ExtensionName, 4 * k);
      }
    }
  }

  /** The instruction `OpCapability PhysicalStorageBufferAddresses`. */
  function CapabilityInstruction(): (instr: seq<u32>)
    ensures instr == [0x0002_0011, 5347]
  {
    Encode(OpCapability, [CapabilityPhysicalStorageBufferAddresses])
  }

  /** The addressing-model step: the operand after the `OpMemoryModel` header
      becomes PhysicalStorageBuffer64, and it is written only when it is not
      that already. */
  function WithPhysicalAddressing(words: seq<u32>, memModel: nat): (r: seq<u32>)
    requires memModel + 1 < |words|
    ensures |r| == |words| && r[memModel + 1] == AddressingModelPhysicalStorageBuffer64
    ensures forall k :: 0 <= k < |words| && k != memModel + 1 ==> r[k] == words[k]
  {
    if words[memModel + 1] == AddressingModelPhysicalStorageBuffer64 then words
    else words[memModel + 1 := AddressingModelPhysicalStorageBuffer64]
  }

  /** The offsets lie where `outputPatched` uses them: the memory-model
      operand inside the words, the extension offset at most the length, and
      the capability offset at most the length after the extension insertion. */
  predicate OffsetsInRange(ir: ParsedIR): (r: bool)
    ensures r ==> && ir.offsets.memModel + 1 < |ir.spirv|
                  && ir.offsets.exts <= |WithPhysicalAddressing(ir.spirv, ir.offsets.memModel)|
                  && ir.offsets.caps <= |Splice(WithPhysicalAddressing(ir.spirv, ir.offsets.memModel), ir.offsets.exts, ExtensionInstruction)|
  {
    && ir.offsets.memModel + 1 < |ir.spirv|
    && ir.offsets.exts <= |ir.spirv|
    && ir.offsets.caps <= |ir.spirv| + |ExtensionInstruction|
  }

  /** The words `outputPatched` writes: the addressing model switched, then
      the extension inserted at `exts`, then the capability at `caps`. */
  function PatchedWords(ir: ParsedIR): (r: seq<u32>)
    requires OffsetsInRange(ir)
    ensures |r| == |ir.spirv| + |CapabilityInstruction()| + |ExtensionInstruction| == |ir.spirv| + 11
  {
    var flipped := WithPhysicalAddressing(ir.spirv, ir.offsets.memModel);
    Splice(Splice(flipped, ir.offsets.exts, ExtensionInstruction), ir.offsets.caps, CapabilityInstruction())
  }

  /** Lines 167-170: a fresh `InstrBuilder{OpExtension}`, the name pushed as
      a string, the instruction inserted at `off`. */
  method AddExtension(copy: WordBuffer, off: nat)
    requires off <= |copy.words|
    modifies copy
    ensures copy.words == Splice(old(copy.words), off, ExtensionInstruction)
  {
    var builder := new InstrBuilder(OpExtension);
    ExtensionInstructionEncodes();
    builder.PushString(ExtensionName);
    builder.Insert(copy, off);
  }

  /** Lines 172-175: a fresh `InstrBuilder{OpCapability}`, the capability
      pushed as one word, the instruction inserted at `off`. */
  method AddCapability(copy: WordBuffer, off: nat)
    requires off <= |copy.words|
    modifies copy
    ensures copy.words == Splice(old(copy.words), off, CapabilityInstruction())
  {
    var builder := new InstrBuilder(OpCapability);
    builder.Push(CapabilityPhysicalStorageBufferAddresses);
    builder.Insert(copy, off);
  }

  /** `outputPatched(ir, file, line)`. The parsed module is a value, so the
      copy is all the method ever changes. */
  method OutputPatched(ir: ParsedIR, file: nat, line: u32) returns (outcome: PatchOutcome)
    requires OffsetsInRange(ir)
    requires ir.spirv[ir.offsets.memModel + 1] in {AddressingModelLogical, AddressingModelPhysicalStorageBuffer64}
    requires file < |ir.sources| && Sorted(ir.sources[file].lineMarkers)
    ensures outcome.NoMatchingLine? <==>
              forall j :: 0 <= j < |ir.sources[file].lineMarkers| ==> ir.sources[file].lineMarkers[j].line < line
    ensures outcome.Patched? ==> outcome.output == PatchedWords(ir)
    ensures outcome.Patched? ==>
              var markers := ir.sources[file].lineMarkers;
              var i := FirstAtLeast(markers, line);
              i < |markers| && outcome.owner == markers[i].owner && (outcome.exact <==> markers[i].line == line)
  {
    var copy := new WordBuffer(ir.spirv);

    // set the new memory addressing model
    var memModel := ir.offsets.memModel;
    if copy.words[memModel + 1] != AddressingModelPhysicalStorageBuffer64 {
      copy.words := copy.words[memModel + 1 := AddressingModelPhysicalStorageBuffer64];
    }
    assert copy.words == WithPhysicalAddressing(ir.spirv, memModel);

    AddExtension(copy, ir.offsets.exts);
    AddCapability(copy, ir.offsets.caps);

    // find the target position
    var found := LocateLine(ir.sources[file], line);
    if found.NotFound? {
      return NoMatchingLine;
    }
    outcome := Patched(copy.words, found.exact, found.marker.owner);
  }

  /** The addressing-model step is idempotent and changes no other word. */
  lemma PhysicalAddressingIdempotent(words: seq<u32>, memModel: nat)
    requires memModel + 1 < |words|
    ensures WithPhysicalAddressing(WithPhysicalAddressing(words, memModel), memModel)
            == WithPhysicalAddressing(words, memModel)
    ensures words[memModel + 1] == AddressingModelPhysicalStorageBuffer64 ==>
              WithPhysicalAddressing(words, memModel) == words
  {
  }

  /** Inserting in descending offset order keeps the cached offsets valid:
      when the capabilities come no later than the extensions, the patched
      words are the old words with the capability instruction placed at
      `caps` and the extension instruction right before the old word at
      `exts`, now at `exts + 2`. */
  lemma DescendingInsertionKeepsOffsets(ir: ParsedIR)
    requires OffsetsInRange(ir)
    requires ir.offsets.caps <= ir.offsets.exts
    ensures var flipped := WithPhysicalAddressing(ir.spirv, ir.offsets.memModel);
            var caps, exts := ir.offsets.caps, ir.offsets.exts;
            PatchedWords(ir) == flipped[..caps] + CapabilityInstruction() + flipped[caps..exts]
                                + ExtensionInstruction + flipped[exts..]
  {
    var flipped := WithPhysicalAddressing(ir.spirv, ir.offsets.memModel);
    SpliceDescending(flipped, ir.offsets.caps, ir.offsets.exts, CapabilityInstruction(), ExtensionInstruction);
  }

  /** The two new instructions sit at `caps` and at `exts + 2` in the
      patched words. */
  lemma PatchedLayout(ir: ParsedIR)
    requires OffsetsInRange(ir)
    requires ir.offsets.caps <= ir.offsets.exts
    ensures PatchedWords(ir)[ir.offsets.caps..ir.offsets.caps + 2] == CapabilityInstruction()
    ensures PatchedWords(ir)[ir.offsets.exts + 2..ir.offsets.exts + 11] == ExtensionInstruction
  {
    var flipped := WithPhysicalAddressing(ir.spirv, ir.offsets.memModel);
    SpliceDescending(flipped, ir.offsets.caps, ir.offsets.exts, CapabilityInstruction(), ExtensionInstruction);
  }

  /** The memory-model instruction, which follows the extensions, moves up by
      eleven words and carries PhysicalStorageBuffer64 as its addressing
      model. */
  lemma MemoryModelAfterPatch(ir: ParsedIR)
    requires OffsetsInRange(ir)
    requires ir.offsets.caps <= ir.offsets.exts <= ir.offsets.memModel
    ensures PatchedWords(ir)[ir.offsets.memModel + 11] == ir.spirv[ir.offsets.memModel]
    ensures PatchedWords(ir)[ir.offsets.memModel + 12] == AddressingModelPhysicalStorageBuffer64
  {
    var mm := ir.offsets.memModel;
    var flipped := WithPhysicalAddressing(ir.spirv, mm);
    var caps, exts := ir.offsets.caps, ir.offsets.exts;
    SpliceDescendingAt(flipped, caps, exts, CapabilityInstruction(), ExtensionInstruction, mm);
    SpliceDescendingAt(flipped, caps, exts, CapabilityInstruction(), ExtensionInstruction, mm + 1);
  }

  /** The words an ascending-order patch would produce: the capability
      inserted first and the extension then placed at the offset cached before
      that insertion. */
  function AscendingWords(ir: ParsedIR): (r: seq<u32>)
    requires OffsetsInRange(ir) && ir.offsets.caps <= |ir.spirv|
    ensures |r| == |ir.spirv| + 11
  {
    var flipped := WithPhysicalAddressing(ir.spirv, ir.offsets.memModel);
    Splice(Splice(flipped, ir.offsets.caps, CapabilityInstruction()), ir.offsets.exts, ExtensionInstruction)
  }

  /** Why the order matters: inserting in ascending order with the stale
      extension offset puts the extension's header at `exts`, two words
      before where the extensions section now begins, so the word at
      `exts + 2` differs from what `outputPatched` writes there. */
  lemma AscendingInsertionIsStale(ir: ParsedIR)
    requires OffsetsInRange(ir)
    requires ir.offsets.caps < ir.offsets.exts
    ensures AscendingWords(ir)[ir.offsets.exts] == ExtensionInstruction[0]
    ensures AscendingWords(ir)[ir.offsets.exts + 2] != PatchedWords(ir)[ir.offsets.exts + 2]
  {
    var flipped := WithPhysicalAddressing(ir.spirv, ir.offsets.memModel);
    var cap, ext := CapabilityInstruction(), ExtensionInstruction;
    assert |cap| == 2 && |ext| == 9 && ext[0] != ext[2];
    SpliceAscendingStale(flipped, ir.offsets.caps, ir.offsets.exts, cap, ext);
    assert AscendingWords(ir) == Splice(Splice(flipped, ir.offsets.caps, cap), ir.offsets.exts, ext);
    assert PatchedWords(ir) == Splice(Splice(flipped, ir.offsets.exts, ext), ir.offsets.caps, cap);
  }
}
