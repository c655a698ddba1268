/** Word-level encoding of SPIR-V: 32-bit words, instruction headers, the
    splice that inserts an instruction into a module, and the packing of a
    literal string into words (section 2.2.1 of the SPIR-V specification). */
module Words {

  /** The unsigned 32-bit integers of the C++ code (`unsigned`, `u32`). */
  type u32 = x: int | 0 <= x < 0x1_0000_0000

  const WORD_MODULUS: int := 0x1_0000_0000

  /** `ceilDivide`: `(num + denom - 1) / denom` in unsigned 32-bit arithmetic,
      so the sum wraps around when it does not fit in a word. */
  function CeilDivide(num: u32, denom: u32): (q: u32)
    requires denom > 0
    ensures q <= (num + denom - 1) / denom
  {
    var sum := (num + denom - 1) % WORD_MODULUS;
    DivMod(sum, denom);
    MulMono(1, denom, sum / denom);
    DivMonotone(sum, num + denom - 1, denom);
    sum / denom
  }

  /** When `num + denom - 1` does not wrap, `CeilDivide` is the least `q`
      with `q * denom >= num`. */
  lemma CeilDivideIsLeast(num: u32, denom: u32)
    requires denom > 0
    requires num + denom - 1 < WORD_MODULUS
    ensures CeilDivide(num, denom) * denom >= num
    ensures CeilDivide(num, denom) == 0 || (CeilDivide(num, denom) - 1) * denom < num
  {
    var s := num + denom - 1;
    assert CeilDivide(num, denom) == s / denom;
    DivMod(s, denom);
    Distribute(s / denom, denom);
  }

  /** As written, `ceilDivide` is wrong once `num + denom - 1` wraps: the
      largest `u32` divided by 4 comes out as 0. */
  lemma CeilDivideWrapsNearMax()
    ensures CeilDivide(0xFFFF_FFFF, 4) == 0
    ensures CeilDivideExact(0xFFFF_FFFF, 4) == 0x4000_0000
  {
  }

  /** On word-aligned sizes, the only ones `readFile` passes when its
      alignment assertion is compiled in, `ceilDivide` by 4 never wraps. */
  lemma CeilDivideWordAligned(num: u32)
    requires num % 4 == 0
    ensures CeilDivide(num, 4) == CeilDivideExact(num, 4) == num / 4
  {
    CeilDivideAgrees(num, 4);
  }

  /** `ceilDivide` without the wrap-around: the quotient rounded up, computed
      so that no intermediate value leaves 32 bits. */
  function CeilDivideExact(num: u32, denom: u32): (q: u32)
    requires denom > 0
    ensures q * denom >= num
    ensures q == 0 || (q - 1) * denom < num
  {
    var d, m := num / denom, num % denom;
    DivMod(num, denom);
    MulMono(1, denom, d);
    Distribute(d, denom);
    d + (if m == 0 then 0 else 1)
  }

  /** Where `ceilDivide` does not wrap, it agrees with the corrected version. */
  lemma CeilDivideAgrees(num: u32, denom: u32)
    requires denom > 0
    requires num + denom - 1 < WORD_MODULUS
    ensures CeilDivide(num, denom) == CeilDivideExact(num, denom)
  {
    CeilDivideIsLeast(num, denom);
    var a, b := CeilDivide(num, denom), CeilDivideExact(num, denom);
    if a < b {
      MulMono(a, b - 1, denom);
    } else if b < a {
      MulMono(b, a - 1, denom);
    }
  }

  /** Euclidean division of naturals. */
  lemma DivMod(num: nat, denom: nat)
    requires denom > 0
    ensures num == (num / denom) * denom + num % denom && 0 <= num % denom < denom
  {
  }

  /** Multiplication by a natural is monotone. */
  lemma MulMono(a: nat, b: nat, c: nat)
    requires a <= b
    ensures a * c <= b * c
  {
    assert b * c == a * c + (b - a) * c;
  }

  /** Division by a positive natural is monotone. */
  lemma DivMonotone(a: nat, b: nat, d: nat)
    requires a <= b && d > 0
    ensures a / d <= b / d
  {
    DivMod(a, d);
    DivMod(b, d);
    if a / d > b / d {
      MulMono(b / d + 1, a / d, d);
      Distribute(b / d, d);
    }
  }

  /** Multiplication distributes over adding or subtracting one. */
  lemma Distribute(d: int, denom: int)
    ensures (d + 1) * denom == d * denom + denom && (d - 1) * denom == d * denom - denom
  {
  }

  /** An opcode: the low 16 bits of an instruction's first word (section 2.3
      of the SPIR-V specification). */
  type Opcode = x: int | 0 <= x < 0x1_0000

  /** The header word `u16(wordCount) << 16 | u16(op)`. The alias `u16` is a
      32-bit type, so the shift is done on a `u32` and drops every bit of the
      count above the sixteenth; the opcode sits below bit 16, so the OR of
      the two halves is their sum. The low half is the opcode and the high
      half is the word count modulo 2^16. */
  function Header(wordCount: nat, opcode: Opcode): (h: u32)
    ensures h % 0x1_0000 == opcode
    ensures h / 0x1_0000 == wordCount % 0x1_0000
  {
    ((wordCount % WORD_MODULUS) * 0x1_0000) % WORD_MODULUS + opcode
  }

  /** One complete instruction: its header followed by its operand words.
      The word count in the header counts the header itself. */
  function Encode(opcode: Opcode, operands: seq<u32>): (instr: seq<u32>)
    ensures |instr| == 1 + |operands| && instr[1..] == operands
    ensures instr[0] % 0x1_0000 == opcode
    ensures |instr| < 0x1_0000 ==> instr[0] / 0x1_0000 == |instr|
  {
    [Header(1 + |operands|, opcode)] + operands
  }

  /** `dst.insert(dst.begin() + off, ...)`: `instr` placed at word offset `off`,
      every word from `off` on moved up by `|instr|`. */
  function Splice(dst: seq<u32>, off: nat, instr: seq<u32>): (r: seq<u32>)
    requires off <= |dst|
    ensures |r| == |dst| + |instr|
    ensures forall k :: 0 <= k < off ==> r[k] == dst[k]
    ensures forall k :: 0 <= k < |instr| ==> r[off + k] == instr[k]
    ensures forall k :: off <= k < |dst| ==> r[k + |instr|] == dst[k]
  {
    dst[..off] + instr + dst[off..]
  }

  /** Two insertions in descending offset order: the instruction inserted
      second, at the lower offset, shifts the first one, which therefore still
      sits right before the words that followed its offset. */
  lemma SpliceDescending(dst: seq<u32>, lo: nat, hi: nat, a: seq<u32>, b: seq<u32>)
    requires lo <= hi <= |dst|
    ensures Splice(Splice(dst, hi, b), lo, a) == dst[..lo] + a + dst[lo..hi] + b + dst[hi..]
    ensures Splice(Splice(dst, hi, b), lo, a)[lo..lo + |a|] == a
    ensures Splice(Splice(dst, hi, b), lo, a)[hi + |a|..hi + |a| + |b|] == b
    ensures forall k :: hi <= k < |dst| ==> Splice(Splice(dst, hi, b), lo, a)[k + |a| + |b|] == dst[k]
  {
    var inner := Splice(dst, hi, b);
    var r := Splice(inner, lo, a);
    assert inner[..lo] == dst[..lo];
    assert inner[lo..] == dst[lo..hi] + b + dst[hi..];
    assert r == dst[..lo] + a + (dst[lo..hi] + b + dst[hi..]);
    assert r[lo..lo + |a|] == a by {
      forall k | 0 <= k < |a| ensures r[lo..lo + |a|][k] == a[k] {
        assert r[lo + k] == a[k];
      }
    }
    assert r[hi + |a|..hi + |a| + |b|] == b by {
      forall k | 0 <= k < |b| ensures r[hi + |a|..hi + |a| + |b|][k] == b[k] {
        SpliceDescendingSecond(dst, lo, hi, a, b, k);
      }
    }
    forall k | hi <= k < |dst| ensures r[k + |a| + |b|] == dst[k] {
      SpliceDescendingAt(dst, lo, hi, a, b, k);
    }
  }

  /** Word `k` of the instruction inserted first, at the higher offset, ends
      up `|a|` words further on once `a` is inserted at the lower offset. */
  lemma SpliceDescendingSecond(dst: seq<u32>, lo: nat, hi: nat, a: seq<u32>, b: seq<u32>, k: nat)
    requires lo <= hi <= |dst| && k < |b|
    ensures hi + |a| + k < |Splice(Splice(dst, hi, b), lo, a)|
    ensures Splice(Splice(dst, hi, b), lo, a)[hi + |a| + k] == b[k]
  {
    var inner := Splice(dst, hi, b);
    assert inner[hi + k] == b[k];
  }

  /** Two insertions in ascending offset order with the higher offset taken
      before the first insertion: `b`'s header lands at `hi`, `|a|` words
      early. At `hi + |a|`, where the descending order has `b`'s header, the
      ascending order has word `|a|` of `b`. */
  lemma SpliceAscendingStale(dst: seq<u32>, lo: nat, hi: nat, a: seq<u32>, b: seq<u32>)
    requires lo <= hi <= |dst| && |a| < |b|
    ensures hi + |a| < |Splice(Splice(dst, lo, a), hi, b)| == |Splice(Splice(dst, hi, b), lo, a)|
    ensures Splice(Splice(dst, lo, a), hi, b)[hi] == b[0]
    ensures Splice(Splice(dst, lo, a), hi, b)[hi + |a|] == b[|a|]
    ensures Splice(Splice(dst, hi, b), lo, a)[hi + |a|] == b[0]
  {
    SpliceDescendingSecond(dst, lo, hi, a, b, 0);
  }

  /** A word at or after the higher offset moves up by both instructions
      when inserting in descending offset order. */
  lemma SpliceDescendingAt(dst: seq<u32>, lo: nat, hi: nat, a: seq<u32>, b: seq<u32>, k: nat)
    requires lo <= hi <= k < |dst|
    ensures k + |a| + |b| < |Splice(Splice(dst, hi, b), lo, a)|
    ensures Splice(Splice(dst, hi, b), lo, a)[k + |a| + |b|] == dst[k]
  {
    var inner := Splice(dst, hi, b);
    assert inner[k + |b|] == dst[k];
  }

  /** The characters the string packing handles: those below 0x80, whose
      promotion from `char` to a word never sign-extends. */
  predicate IsAscii(text: string)
  {
    forall i :: 0 <= i < |text| ==> text[i] < 0x80 as char
  }

  /** The character code of an ASCII character. */
  function Code(c: char): (b: nat)
    requires c < 0x80 as char
    ensures b < 0x80
  {
    c as int
  }

  /** The word that packs the characters at `i`, `i + 1`, `i + 2`, `i + 3`,
      little-endian, each one OR-ed in only when it lies inside the text (a
      character past the end contributes nothing). Every character sits in
      its own byte lane, so each OR is an addition. */
  function PackedWord(text: string, i: nat): (w: u32)
    requires IsAscii(text) && i < |text|
    ensures w % 0x100 == Code(text[i])
  {
    var c0 := Code(text[i]);
    var c1 := if i + 1 < |text| then Code(text[i + 1]) else 0;
    var c2 := if i + 2 < |text| then Code(text[i + 2]) else 0;
    var c3 := if i + 3 < |text| then Code(text[i + 3]) else 0;
    BytesOfFour(c0, c1, c2, c3, 0);
    c0 + c1 * 0x100 + c2 * 0x1_0000 + c3 * 0x100_0000
  }

  /** The number of words a text of `n` characters occupies: ceil(n / 4). */
  function WordsFor(n: nat): (k: nat)
    ensures 4 * k - 4 < n <= 4 * k
  {
    (n + 3) / 4
  }

  /** The words a text is packed into, one `PackedWord` per group of four. */
  function PackString(text: string): (words: seq<u32>)
    requires IsAscii(text)
    ensures 4 * |words| - 4 < |text| <= 4 * |words|
    ensures forall k :: 0 <= k < |words| ==> words[k] % 0x100 == Code(text[4 * k])
  {
    seq(WordsFor(|text|), k requires 0 <= k < WordsFor(|text|) => PackedWord(text, 4 * k))
  }

  /** Byte `j` (0 is the least significant) of a word. */
  function ByteOf(w: u32, j: nat): (b: nat)
    requires j < 4
    ensures b < 0x100
  {
    if j == 0 then w % 0x100
    else if j == 1 then w / 0x100 % 0x100
    else if j == 2 then w / 0x1_0000 % 0x100
    else w / 0x100_0000 % 0x100
  }

  /** Reading a packed string back: four characters per word, least
      significant byte first, padding included. */
  function Unpack(words: seq<u32>): (text: string)
    ensures |text| == 4 * |words|
  {
    seq(4 * |words|, i requires 0 <= i < 4 * |words| => ByteOf(words[i / 4], i % 4) as char)
  }

  /** Drops the NUL characters at the end of a text. */
  function TrimNul(text: string): (r: string)
    ensures |r| <= |text| && r == text[..|r|]
    ensures r == [] || r[|r| - 1] != '\0'
  {
    if |text| > 0 && text[|text| - 1] == '\0' then TrimNul(text[..|text| - 1]) else text
  }

  /** Byte `j` of the word packed from position `base` is the character at
      `base + j`, or zero past the end of the text. */
  lemma PackedWordByte(text: string, base: nat, j: nat)
    requires IsAscii(text) && base < |text| && j < 4
    ensures ByteOf(PackedWord(text, base), j) ==
              if base + j < |text| then Code(text[base + j]) else 0
  {
    var c0 := Code(text[base]);
    var c1 := if base + 1 < |text| then Code(text[base + 1]) else 0;
    var c2 := if base + 2 < |text| then Code(text[base + 2]) else 0;
    var c3 := if base + 3 < |text| then Code(text[base + 3]) else 0;
    BytesOfFour(c0, c1, c2, c3, j);
  }

  /** Arithmetic fact behind `PackedWordByte`: four bytes placed in their own
      lanes can be read back lane by lane. */
  lemma BytesOfFour(c0: nat, c1: nat, c2: nat, c3: nat, j: nat)
    requires c0 < 0x100 && c1 < 0x100 && c2 < 0x100 && c3 < 0x100 && j < 4
    ensures c0 + c1 * 0x100 + c2 * 0x1_0000 + c3 * 0x100_0000 < WORD_MODULUS
    ensures ByteOf(c0 + c1 * 0x100 + c2 * 0x1_0000 + c3 * 0x100_0000, j) ==
              if j == 0 then c0 else if j == 1 then c1 else if j == 2 then c2 else c3
  {
    var w := c0 + c1 * 0x100 + c2 * 0x1_0000 + c3 * 0x100_0000;
    assert w / 0x100 == c1 + c2 * 0x100 + c3 * 0x1_0000;
    assert w / 0x1_0000 == c2 + c3 * 0x100;
    assert w / 0x100_0000 == c3;
  }

  /** `PackString` produces ceil(|text| / 4) words, and byte `i % 4` of word `i / 4` is character `i`, with zeros
      after the last character. */
  lemma PackStringLayout(text: string)
    requires IsAscii(text)
    ensures 4 * |PackString(text)| - 4 < |text| <= 4 * |PackString(text)|
    ensures |text| < WORD_MODULUS ==> |PackString(text)| == CeilDivideExact(|text|, 4)
    ensures forall i :: 0 <= i < 4 * |PackString(text)| ==>
              ByteOf(PackString(text)[i / 4], i % 4) == if i < |text| then Code(text[i]) else 0
  {
    var words := PackString(text);
    forall i | 0 <= i < 4 * |words|
      ensures ByteOf(words[i / 4], i % 4) == if i < |text| then Code(text[i]) else 0
    {
      assert words[i / 4] == PackedWord(text, 4 * (i / 4));
      PackedWordByte(text, 4 * (i / 4), i % 4);
    }
  }

  /** Literal-string round trip: for ASCII text without NUL characters,
      unpacking the packed words and trimming the NUL padding gives the text
      back. */
  lemma PackStringRoundTrip(text: string)
    requires IsAscii(text)
    requires forall i :: 0 <= i < |text| ==> text[i] != '\0'
    ensures TrimNul(Unpack(PackString(text))) == text
  {
    var u := Unpack(PackString(text));
    PackStringLayout(text);
    assert u[..|text|] == text by {
      forall i | 0 <= i < |text| ensures u[i] == text[i] {
        assert ByteOf(PackString(text)[i / 4], i % 4) == Code(text[i]);
      }
    }
    forall i | |text| <= i < |u| ensures u[i] == '\0' {
      assert ByteOf(PackString(text)[i / 4], i % 4) == 0;
    }
    TrimNulPadding(u, |text|);
  }

  /** Trimming a text whose characters from `n` on are NUL and whose
      character `n - 1` is not gives its first `n` characters. */
  lemma {:induction false} TrimNulPadding(u: string, n: nat)
    requires n <= |u|
    requires forall i :: n <= i < |u| ==> u[i] == '\0'
    requires n == 0 || u[n - 1] != '\0'
    ensures TrimNul(u) == u[..n]
  {
    if |u| > n {
      TrimNulPadding(u[..|u| - 1], n);
      assert u[..|u| - 1][..n] == u[..n];
    } else {
      assert u[..n] == u;
    }
  }
}
