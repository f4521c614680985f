/** eBPF instructions as the driver receives them: 8 bytes, transferred as two
    32-bit little-endian words (RFC 9669, section 3.1). */
module Insns {
  import opened Words

  type nibble = x: int | 0 <= x < 16

  datatype Insn = Insn(code: u8, dst: nibble, src: nibble, off: s16, imm: s32)

  const LDDW: u8 := 0x18  // BPF_LD | BPF_IMM | BPF_DW, the 16-byte instruction of section 3.2
  const CALL: u8 := 0x85  // BPF_JMP | BPF_CALL
  const EXIT: u8 := 0x95  // BPF_JMP | BPF_EXIT

  /** The first word of an instruction: opcode, registers, offset. */
  function FirstWord(i: Insn): u32 {
    i.code + 0x100 * i.dst + 0x1000 * i.src + 0x1_0000 * (i.off % 0x1_0000)
  }

  function SecondWord(i: Insn): u32 {
    Unsigned32(i.imm)
  }

  /** What two words mean once the word buffer is read as `struct bpf_insn`. */
  function FromWords(w0: u32, w1: u32): Insn {
    var rest := w0 / 0x100;
    Insn(w0 % 0x100, rest % 16, rest / 16 % 16, Signed16(rest / 0x100), Signed32(w1))
  }

  /** The words sent for a program. */
  function ToWords(p: seq<Insn>): (w: seq<u32>)
    ensures |w| == 2 * |p|
  {
    seq(2 * |p|, k requires 0 <= k < 2 * |p| =>
      if k % 2 == 0 then FirstWord(p[k / 2]) else SecondWord(p[k / 2]))
  }

  /** The program held by an even number of words. */
  function Parse(w: seq<u32>): (p: seq<Insn>)
    ensures |p| == |w| / 2
  {
    seq(|w| / 2, i requires 0 <= i < |w| / 2 => FromWords(w[2 * i], w[2 * i + 1]))
  }

  lemma InsnRoundTrip(i: Insn)
    ensures FromWords(FirstWord(i), SecondWord(i)) == i
  {
    hide Signed16, Signed32, Unsigned32;
    var dst: int, src: int, off: int := i.dst, i.src, i.off % 0x1_0000;
    SplitByte(i.code, dst + 16 * (src + 16 * off));
    SplitNibble(dst, src + 16 * off);
    SplitNibble(src, off);
    SplitByte(dst + 16 * src, off);
    SignedHalves(i.off, 0);
    SignedWords(i.imm, 0);
  }

  lemma WordsRoundTrip(w0: u32, w1: u32)
    ensures FirstWord(FromWords(w0, w1)) == w0
    ensures SecondWord(FromWords(w0, w1)) == w1
  {
    hide Signed16, Signed32, Unsigned32;
    var rest := w0 / 0x100;
    var q := rest / 16;
    assert rest == rest % 16 + 16 * (q % 16) + 0x100 * (q / 16);
    SplitByte(rest % 16 + 16 * (q % 16), q / 16);
    SignedHalves(0, rest / 0x100);
    SignedWords(0, w1);
  }

  /** The eight bytes of an instruction (RFC 9669, section 3.1): opcode, source and
      destination register in one byte, offset, immediate, low bytes first. */
  function InsnBytes(i: Insn): (b: seq<u8>)
    ensures |b| == 8
  {
    BytesOf(FirstWord(i)) + BytesOf(SecondWord(i))
  }

  lemma BytesByTheirFields(i: Insn)
    ensures var b, off, imm := InsnBytes(i), i.off % 0x1_0000, i.imm % 0x1_0000_0000;
      && b[0] == i.code && b[1] == 16 * i.src + i.dst
      && b[2] == off % 256 && b[3] == off / 256
      && b[4] == imm % 256 && b[5] == imm / 256 % 256 && b[6] == imm / 256 / 256 % 256
      && b[7] == imm / 256 / 256 / 256
  {
    var dst: int, src: int, off: int := i.dst, i.src, i.off % 0x1_0000;
    SplitByte(i.code, dst + 16 * src + 256 * off);
    SplitByte(dst + 16 * src, off);
  }

  lemma WordsOfInsn(p: seq<Insn>, i: nat)
    requires i < |p|
    ensures ToWords(p)[2 * i] == FirstWord(p[i])
    ensures ToWords(p)[2 * i + 1] == SecondWord(p[i])
  {
    hide FirstWord, SecondWord;
    assert 2 * i / 2 == i && 2 * i % 2 == 0 && (2 * i + 1) / 2 == i && (2 * i + 1) % 2 == 1;
  }

  /** Sending a program as words and reading the words as instructions are
      mutually inverse, so no instruction field is lost or mixed with another. */
  lemma ProgramRoundTrip(p: seq<Insn>)
    ensures Parse(ToWords(p)) == p
  {
    hide FirstWord, SecondWord, FromWords;
    forall i | 0 <= i < |p|
      ensures Parse(ToWords(p))[i] == p[i]
    {
      WordsOfInsn(p, i);
      InsnRoundTrip(p[i]);
    }
  }

  lemma ParseIsFaithful(w: seq<u32>)
    requires |w| % 2 == 0
    ensures ToWords(Parse(w)) == w
  {
    hide FirstWord, SecondWord, FromWords;
    forall k | 0 <= k < |w|
      ensures ToWords(Parse(w))[k] == w[k]
    {
      WordsRoundTrip(w[2 * (k / 2)], w[2 * (k / 2) + 1]);
    }
  }
}
