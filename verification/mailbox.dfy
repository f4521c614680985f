/** The device window the driver talks through, one 32-bit word per 4 bytes, and
    the message format carried in it. */
module Mailboxes {
  import opened Words
  import opened Insns

  const REG_STATUS_IRQ := 0
  const REG_LOWER_IRQ := 4
  const REG_DOORBELL := 8
  const BUF := 16
  const HEADER_OFFSET := 4
  /** Register words, the header word, and room for any 16-bit payload length. */
  const WINDOW_WORDS := 5 + 0x4000

  const DEFAULT_VERSION: u8 := 1
  const PROGRAM_INJECTION := 1
  const PROGRAM_MEMORY_INFO := 3
  const PROGRAM_SET_MAXIMUM_ORDER := 4
  const FIRST_ROUND_MIGRATION_START := 5
  const FIRST_ROUND_MIGRATION: u8 := 20
  const FIRST_ROUND_MIGRATION_ENDED := 21
  const INIT_IRQ := 22

  /** The words of a device window. */
  type Window = w: seq<u32> | |w| >= WINDOW_WORDS witness seq(WINDOW_WORDS, _ => 0)

  datatype Header = Header(version: u8, kind: u8, length: u16)
  datatype Message = Message(header: Header, payload: seq<u8>)
  datatype Write = Write(offset: nat, value: u32)

  /** The header struct read as one word. */
  function HeaderWord(h: Header): u32 {
    h.version + 0x100 * h.kind + 0x1_0000 * h.length
  }

  function HeaderOf(w: u32): Header {
    var rest := w / 0x100;
    Header(w % 0x100, rest % 0x100, rest / 0x100)
  }

  class Mailbox {
    var words: seq<u32>
    /** Every `iowrite32`, in program order. */
    var writes: seq<Write>

    ghost predicate Valid()
      reads this
    {
      |words| >= WINDOW_WORDS
    }

    constructor (size: nat)
      requires size >= WINDOW_WORDS
      ensures Valid() && words == seq(size, _ => 0) && writes == []
    {
      words := seq(size, _ => 0);
      writes := [];
    }

    method Write32(offset: nat, value: u32)
      requires Valid() && offset % 4 == 0 && offset / 4 < |words|
      modifies this
      ensures Valid()
      ensures words == old(words)[offset / 4 := value]
      ensures writes == old(writes) + [Write(offset, value)]
    {
      words := words[offset / 4 := value];
      writes := writes + [Write(offset, value)];
    }

    method Read32(offset: nat) returns (value: u32)
      requires Valid() && offset % 4 == 0 && offset / 4 < |words|
      ensures value == words[offset / 4]
    {
      value := words[offset / 4];
    }

    /** `mywrite`: the header word, then the payload one word at a time, or no
        payload at all when the length is not a multiple of 4. */
    method MyWrite(msg: Message, offset: nat) returns (ret: nat)
      requires Valid() && offset % 4 == 0
      requires msg.header.length <= |msg.payload|
      requires offset / 4 + 1 + PayloadWords(msg) <= |words|
      modifies this
      ensures Valid()
      ensures words == Delivered(old(words), offset / 4, msg, PayloadWords(msg))
      ensures writes == old(writes) + DeliveryWrites(offset, msg, PayloadWords(msg))
      ensures msg.header.length % 4 == 0 ==>
        && ret == msg.header.length
        && offset / 4 + 1 + msg.header.length / 4 <= |words| == |old(words)|
        && forall j :: 0 <= j < msg.header.length / 4 ==> words[offset / 4 + 1 + j] == WordAt(msg.payload, 4 * j)
      ensures msg.header.length % 4 != 0 ==>
        ret == 0 && words == old(words)[offset / 4 := HeaderWord(msg.header)]
    {
      ghost var at := offset / 4;
      ret := 0;
      var off := 0;
      Write32(offset, HeaderWord(msg.header));
      assert words == Delivered(old(words), at, msg, 0);
      assert writes == old(writes) + DeliveryWrites(offset, msg, 0);
      if msg.header.length % 4 == 0 {
        ghost var n := 0;
        while off < msg.header.length
          invariant 0 <= n <= PayloadWords(msg) && off == ret == 4 * n
          invariant Valid() && |words| == |old(words)|
          invariant words == Delivered(old(words), at, msg, n)
          invariant writes == old(writes) + DeliveryWrites(offset, msg, n)
          decreases msg.header.length - off
        {
          DeliverOneMore(old(words), at, msg, n);
          Write32(offset + off + 4, WordAt(msg.payload, off));
          assert writes == old(writes) + DeliveryWrites(offset, msg, n + 1);
          off := off + 4;
          ret := ret + 4;
          n := n + 1;
        }
      }
    }
  }

  /** How many payload words a delivery writes. */
  function PayloadWords(msg: Message): nat {
    if msg.header.length % 4 == 0 then msg.header.length / 4 else 0
  }

  /** The window after the header and the first `n` payload words of a message
      are delivered at word `at`. */
  function Delivered(words: seq<u32>, at: nat, msg: Message, n: nat): (w: seq<u32>)
    requires 4 * n <= |msg.payload|
    requires at + 1 + n <= |words|
    ensures |w| == |words|
  {
    words[..at] + [HeaderWord(msg.header)] +
    seq(n, j requires 0 <= j < n => WordAt(msg.payload, 4 * j)) + words[at + 1 + n..]
  }

  function DeliveryWrites(offset: nat, msg: Message, n: nat): seq<Write>
    requires 4 * n <= |msg.payload|
  {
    [Write(offset, HeaderWord(msg.header))] +
    seq(n, j requires 0 <= j < n => Write(offset + HEADER_OFFSET + 4 * j, WordAt(msg.payload, 4 * j)))
  }

  /** The window after a list of writes, oldest first. */
  function Replay(words: seq<u32>, writes: seq<Write>): (w: seq<u32>)
    ensures |w| == |words|
    decreases |writes|
  {
    if writes == [] then words
    else
      var last := writes[|writes| - 1];
      var before := Replay(words, writes[..|writes| - 1]);
      if last.offset / 4 < |words| then before[last.offset / 4 := last.value] else before
  }

  /** The writes of a delivery, in order, produce the delivered window. */
  lemma {:induction false} DeliveryReplays(words: seq<u32>, offset: nat, msg: Message, n: nat)
    requires offset % 4 == 0 && 4 * n <= |msg.payload| && offset / 4 + 1 + n <= |words|
    ensures Replay(words, DeliveryWrites(offset, msg, n)) == Delivered(words, offset / 4, msg, n)
    decreases n
  {
    var w := DeliveryWrites(offset, msg, n);
    if n == 0 {
      assert w[..0] == [] && w == [Write(offset, HeaderWord(msg.header))];
      assert Replay(words, w) == words[offset / 4 := HeaderWord(msg.header)];
    } else {
      DeliveryReplays(words, offset, msg, n - 1);
      DeliverOneMore(words, offset / 4, msg, n - 1);
      assert w[..n] == DeliveryWrites(offset, msg, n - 1);
      assert w[n].offset / 4 == offset / 4 + n;
    }
  }

  /** A delivery at the payload window writes only there: never to the registers
      below it, and never past the room for a 16-bit length. */
  lemma DeliveryStaysInWindow(msg: Message)
    requires msg.header.length <= |msg.payload|
    ensures forall i :: 0 <= i <= PayloadWords(msg) ==>
      var w := DeliveryWrites(BUF, msg, PayloadWords(msg))[i];
      w.offset % 4 == 0 && BUF <= w.offset < BUF + HEADER_OFFSET + 0x1_0000 == 4 * WINDOW_WORDS
  {
    hide WordAt, HeaderWord;
    var n := PayloadWords(msg);
    assert 4 * n <= msg.header.length;
    forall i | 0 <= i <= n
      ensures DeliveryWrites(BUF, msg, n)[i].offset == BUF + 4 * i
    {
    }
  }

  lemma DeliverOneMore(words: seq<u32>, at: nat, msg: Message, n: nat)
    requires 4 * n + 4 <= |msg.payload|
    requires at + 2 + n <= |words|
    ensures Delivered(words, at, msg, n)[at + 1 + n := WordAt(msg.payload, 4 * n)] == Delivered(words, at, msg, n + 1)
  {
  }

  /** How many whole 8-byte instructions a header announces. */
  function InsnCount(header: u32): nat {
    HeaderOf(header).length / 8
  }

  /** What the loader takes from the window: two words for each instruction. */
  function Sent(words: seq<u32>): seq<u32>
    requires |words| >= WINDOW_WORDS
  {
    words[5..5 + 2 * InsnCount(words[4])]
  }

  lemma SentAfterDelivery(words: seq<u32>, msg: Message)
    requires |words| >= WINDOW_WORDS && msg.header.length <= |msg.payload|
    requires msg.header.length % 4 == 0
    ensures var w := Delivered(words, BUF / 4, msg, PayloadWords(msg));
      && HeaderOf(w[4]) == msg.header
      && |Sent(w)| == 2 * (msg.header.length / 8)
      && forall j :: 0 <= j < |Sent(w)| ==> Sent(w)[j] == WordAt(msg.payload, 4 * j)
  {
    var w := Delivered(words, BUF / 4, msg, PayloadWords(msg));
    HeaderRoundTrip(msg.header);
    assert w[4] == HeaderWord(msg.header);
    assert forall j :: 0 <= j < |Sent(w)| ==> Sent(w)[j] == w[5 + j];
  }

  function Serialize(words: seq<u32>): (bytes: seq<u8>)
    ensures |bytes| == 4 * |words|
  {
    if words == [] then [] else BytesOf(words[0]) + Serialize(words[1..])
  }

  /** Every word of a payload whose length is a multiple of 4 is in the window after
      a delivery, the last one included; otherwise only the header word changes. */
  lemma WholePayloadDelivered(words: seq<u32>, msg: Message)
    requires |words| >= WINDOW_WORDS && msg.header.length <= |msg.payload|
    ensures var w := Delivered(words, 4, msg, PayloadWords(msg)); var n := msg.header.length;
      && (n % 4 == 0 ==> forall j :: 0 <= j < n / 4 ==> w[5 + j] == WordAt(msg.payload, 4 * j))
      && (n % 4 != 0 ==> w == words[4 := HeaderWord(msg.header)])
  {
    hide WordAt, HeaderWord;
    var w := Delivered(words, 4, msg, PayloadWords(msg));
    if msg.header.length % 4 != 0 {
      assert w == words[4 := HeaderWord(msg.header)];
    }
  }

  /** The bytes of a program are those of its instructions, one after another. */
  lemma ProgramBytes(p: seq<Insn>, i: nat)
    requires i < |p|
    ensures Serialize(ToWords(p))[8 * i..8 * i + 8] == InsnBytes(p[i])
  {
    hide FirstWord, SecondWord, WordAt, BytesOf, Serialize, ToWords;
    WordsOfInsn(p, i);
    SerializedBytes(ToWords(p), 2 * i);
    SerializedBytes(ToWords(p), 2 * i + 1);
    var b := Serialize(ToWords(p));
    assert b[8 * i..8 * i + 8] == b[4 * (2 * i)..4 * (2 * i) + 4] + b[4 * (2 * i + 1)..4 * (2 * i + 1) + 4];
  }

  lemma {:induction false} SerializedBytes(words: seq<u32>, j: nat)
    requires j < |words|
    ensures Serialize(words)[4 * j..4 * j + 4] == BytesOf(words[j])
  {
    hide BytesOf, WordAt;
    if j > 0 {
      SerializedBytes(words[1..], j - 1);
      assert Serialize(words)[4 * j..4 * j + 4] == Serialize(words[1..])[4 * (j - 1)..4 * (j - 1) + 4];
    }
  }

  /** The four bytes of the header: version, type, length, low byte first. */
  lemma HeaderBytes(h: Header)
    ensures BytesOf(HeaderWord(h)) == [h.version, h.kind, h.length % 256, h.length / 256]
  {
    SplitByte(h.version, h.kind + 0x100 * h.length);
    SplitByte(h.kind, h.length);
  }

  lemma HeaderRoundTrip(h: Header)
    ensures HeaderOf(HeaderWord(h)) == h
  {
    SplitByte(h.version, h.kind + 0x100 * h.length);
    SplitByte(h.kind, h.length);
  }

  lemma {:induction false} SerializedWord(words: seq<u32>, j: nat)
    requires j < |words|
    ensures WordAt(Serialize(words), 4 * j) == words[j]
  {
    if j > 0 {
      SerializedWord(words[1..], j - 1);
      var rest := Serialize(words[1..]);
      assert forall k :: 4 <= k < 4 * |words| ==> Serialize(words)[k] == rest[k - 4];
    }
  }

  lemma WordBytes(b: seq<u8>, off: nat)
    requires off + 4 <= |b|
    ensures BytesOf(WordAt(b, off)) == b[off..off + 4]
  {
    var b0: int, b1: int, b2: int, b3: int := b[off], b[off + 1], b[off + 2], b[off + 3];
    SplitByte(b0, b1 + 0x100 * b2 + 0x1_0000 * b3);
    SplitByte(b1, b2 + 0x100 * b3);
    SplitByte(b2, b3);
  }

  lemma {:induction false} SerializeWords(b: seq<u8>, w: seq<u32>)
    requires 4 * |w| <= |b|
    requires forall j :: 0 <= j < |w| ==> w[j] == WordAt(b, 4 * j)
    ensures Serialize(w) == b[..4 * |w|]
    decreases |w|
  {
    if w != [] {
      WordBytes(b, 0);
      assert forall j :: 0 <= j < |w| - 1 ==> w[1..][j] == WordAt(b, 4 * (j + 1)) == WordAt(b[4..], 4 * j);
      SerializeWords(b[4..], w[1..]);
      assert b[..4 * |w|] == b[..4] + b[4..][..4 * |w[1..]|];
    }
  }

  /** Wire round trip with truncation: after delivery at the payload window the
      header reads back, the loader's words are the longest prefix of the payload
      made of whole instructions, and the registers below the window and the
      words beyond the payload keep their values. */
  lemma WireRoundTrip(words: seq<u32>, msg: Message)
    requires |words| >= WINDOW_WORDS && msg.header.length <= |msg.payload|
    requires msg.header.length % 4 == 0
    ensures var w := Delivered(words, BUF / 4, msg, PayloadWords(msg));
      && HeaderOf(w[4]) == msg.header
      && Serialize(Sent(w)) == msg.payload[..msg.header.length / 8 * 8]
      && w[..4] == words[..4]
      && w[5 + msg.header.length / 4..] == words[5 + msg.header.length / 4..]
  {
    hide HeaderOf, HeaderWord, WordAt, Serialize;
    SentAfterDelivery(words, msg);
    SerializeWords(msg.payload, Sent(Delivered(words, BUF / 4, msg, PayloadWords(msg))));
  }

  function ProgramMessage(p: seq<Insn>, kind: u8): Message
    requires 8 * |p| < 0x1_0000
  {
    Message(Header(DEFAULT_VERSION, kind, 8 * |p|), Serialize(ToWords(p)))
  }

  /** Delivering a serialized program makes exactly that program readable. */
  lemma ProgramDelivered(words: seq<u32>, p: seq<Insn>, kind: u8)
    requires |words| >= WINDOW_WORDS && 8 * |p| < 0x1_0000
    ensures var msg := ProgramMessage(p, kind);
      Parse(Sent(Delivered(words, BUF / 4, msg, PayloadWords(msg)))) == p
  {
    hide HeaderOf, HeaderWord, WordAt, Serialize, Parse;
    var msg := ProgramMessage(p, kind);
    SentAfterDelivery(words, msg);
    var sent := Sent(Delivered(words, BUF / 4, msg, PayloadWords(msg)));
    forall j | 0 <= j < |sent|
      ensures sent[j] == ToWords(p)[j]
    {
      SerializedWord(ToWords(p), j);
    }
    assert sent == ToWords(p);
    ProgramRoundTrip(p);
  }
}
