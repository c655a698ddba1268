/** The instruction encoder: `InstrBuilder` collects the operand words of one
    instruction behind a reserved header slot and splices the finished
    instruction into a word buffer (`std::vector<u32>`) that it updates in
    place. */
module Encoder {
  import opened Words

  /** A module's words, as the `std::vector<u32>` that `insert` grows in place. */
  class WordBuffer {
    var words: seq<u32>

    constructor (init: seq<u32>)
      ensures words == init
    {
      words := init;
    }
  }

  /** A one-shot instruction draft. `vals[0]` is reserved for the header and
      the operands follow it in push order; `insert` empties `vals`, which is
      what the destructor asserts. */
  class InstrBuilder {
    const op: Opcode
    var vals: seq<u32>

    /** `InstrBuilder{op}`: an empty draft with its reserved header slot. */
    constructor (op: Opcode)
      ensures this.op == op && vals == [0] && Operands() == []
    {
      this.op := op;
      vals := [0];
    }

    /** The operands pushed so far (everything after the reserved slot). */
    function Operands(): seq<u32>
      reads this
      requires |vals| >= 1
    {
      vals[1..]
    }

    /** The destructor's invariant: a draft ends its life empty. */
    predicate Consumed()
      reads this
    {
      vals == []
    }

    /** `push` of an integral or enum value: one more operand word. */
    method Push(value: u32)
      modifies this
      ensures vals == old(vals) + [value]
      ensures |old(vals)| >= 1 ==> Operands() == old(Operands()) + [value]
    {
      vals := vals + [value];
    }

    /** `push` of a literal string: the text packed four characters per word,
        appended one word per loop iteration. */
    method PushString(text: string)
      requires IsAscii(text)
      modifies this
      ensures vals == old(vals) + PackString(text)
      ensures |old(vals)| >= 1 ==> Operands() == old(Operands()) + PackString(text)
    {
      ghost var start := vals;
      var i: nat := 0;
      while i < |text|
        invariant i % 4 == 0 && i < |text| + 4
        invariant i / 4 <= WordsFor(|text|)
        invariant vals == start + PackString(text)[..i / 4]
      {
        var ret := Code(text[i]);
        if i + 1 < |text| { ret := ret + Code(text[i + 1]) * 0x100; }
        if i + 2 < |text| { ret := ret + Code(text[i + 2]) * 0x1_0000; }
        if i + 3 < |text| { ret := ret + Code(text[i + 3]) * 0x100_0000; }
        assert ret == PackedWord(text, i) == PackString(text)[i / 4];
        assert PackString(text)[..i / 4 + 1] == PackString(text)[..i / 4] + [ret];
        vals := vals + [ret];
        i := i + 4;
      }
      assert i / 4 == WordsFor(|text|);
    }

    /** `insert(dst, off)`: writes the header into the reserved slot and
        splices header and operands into `dst` at `off`; the draft is then
        consumed. */
    method Insert(dst: WordBuffer, off: nat)
      requires |vals| >= 1
      requires off <= |dst.words|
      modifies this, dst
      ensures dst.words == Splice(old(dst.words), off, Encode(op, old(Operands())))
      ensures Consumed()
    {
      vals := vals[0 := Header(|vals|, op)];
      dst.words := dst.words[..off] + vals + dst.words[off..];
      vals := [];
    }
  }
}
