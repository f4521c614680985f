/** Building an injection message from an object file's sections
    (host_interface/bpf_injection_msg.h, prepare_bpf_injection_message). */
module Sections {
  import opened Words
  import opened Mailboxes

  /** What libelf answers about one section: whether it and its header are found,
      whether it is PROGBITS, its name, its size field, and its data blocks. */
  datatype Section = Section(found: bool, header: bool, progbits: bool, name: Option<string>, size: nat,
                             blocks: seq<seq<u8>>)

  predicate Eligible(s: Section) {
    s.found && s.header && s.progbits && s.name.Some? && s.size != 0 && |s.blocks| == 1
  }

  function Data(s: Section): seq<u8>
    requires Eligible(s)
  {
    s.blocks[0]
  }

  /** The last eligible section among numbers 1 to n - 1, or 0. */
  function LastEligible(sections: seq<Section>, n: nat): (i: nat)
    requires n <= |sections|
    ensures i > 0 ==> i < n && Eligible(sections[i])
    ensures forall j :: i < j < n ==> !Eligible(sections[j])
  {
    if n <= 1 then 0
    else if Eligible(sections[n - 1]) then n - 1
    else LastEligible(sections, n - 1)
  }

  /** The fields set on return. `payload` is None while the pointer is unset;
      `overrun` tells that some copy was longer than the buffer allocated for it. */
  datatype Prepared = Prepared(version: u8, kind: u8, length: u16, payload: Option<seq<u8>>, overrun: bool)

  /** The copy of a section: its length goes through 16 bits, the buffer has that
      length, and the whole block is copied. */
  function Copied(data: seq<u8>): (u16, seq<u8>) {
    var length := |data| % 0x1_0000;
    (length, data[..length])
  }

  method PrepareMessage(readable: bool, sections: seq<Section>, sectionName: string, kind: u8) returns (m: Prepared)
    ensures m.version == 1 && m.kind == kind
    ensures var last := if readable then LastEligible(sections, |sections|) else 0;
      && (m.payload.None? <==> last == 0)
      && (last > 0 ==> (m.length, m.payload.value) == Copied(Data(sections[last])))
    ensures m.overrun <==>
      && readable
      && exists i :: 1 <= i < |sections| && Eligible(sections[i]) && |Data(sections[i])| >= 0x1_0000
  {
    var version, payload, overrun := DEFAULT_VERSION, None, false;
    var length: u16 := 0;
    if !readable {
      return Prepared(version, kind, length, payload, overrun);
    }
    var i := 1;
    while i < |sections|
      invariant 1 <= i && (i <= |sections| || |sections| == 0)
      invariant |sections| > 0 ==> var last := LastEligible(sections, i);
        && (payload.None? <==> last == 0)
        && (last > 0 ==> (length, payload.value) == Copied(Data(sections[last])))
      invariant |sections| == 0 ==> payload.None?
      invariant overrun <==>
        exists j :: 1 <= j < i && j < |sections| && Eligible(sections[j]) && |Data(sections[j])| >= 0x1_0000
    {
      var s := sections[i];
      i := i + 1;
      if !s.found { continue; }
      if !s.header { continue; }
      if !s.progbits { continue; }
      if s.name.None? || s.size == 0 { continue; }
      if s.blocks == [] || |s.blocks| != 1 { continue; }
      length := |s.blocks[0]| % 0x1_0000;
      payload := Some(s.blocks[0][..length]);
      overrun := overrun || |s.blocks[0]| > length;
    }
    return Prepared(version, kind, length, payload, overrun);
  }

  /** What is sent, by the answers about the sections themselves: it comes from one,
      numbered from 1 on, that is found, has a header, is PROGBITS and named, has a
      non-zero size and exactly one data block; none after it has all of these; and
      something is sent iff some section has. */
  lemma SentByItsFields(sections: seq<Section>)
    ensures var k := LastEligible(sections, |sections|);
      k > 0 ==>
        && k < |sections| && sections[k].found && sections[k].header && sections[k].progbits
        && sections[k].name.Some? && sections[k].size != 0 && |sections[k].blocks| == 1
        && Data(sections[k]) == sections[k].blocks[0]
    ensures forall j :: 1 <= j < |sections| && LastEligible(sections, |sections|) < j ==>
      || !sections[j].found || !sections[j].header || !sections[j].progbits
      || sections[j].name.None? || sections[j].size == 0 || |sections[j].blocks| != 1
    ensures LastEligible(sections, |sections|) > 0 <==> exists j ::
      && 1 <= j < |sections| && sections[j].found && sections[j].header && sections[j].progbits
      && sections[j].name.Some? && sections[j].size != 0 && |sections[j].blocks| == 1
  {
  }

  const NOT_FOUND := Section(false, false, false, None, 0, [])

  /** Failing any one of the tests is as good as not being there: such a section can
      be replaced by one that is not found, and the same section is sent, with the
      same bytes, and the same copies overrun. */
  lemma FailingOneTestIsFailingAll(sections: seq<Section>, k: nat)
    requires k < |sections|
    requires var s := sections[k];
      !s.found || !s.header || !s.progbits || s.name.None? || s.size == 0 || |s.blocks| != 1
    ensures var without := sections[k := NOT_FOUND]; var i := LastEligible(sections, |sections|);
      && LastEligible(without, |without|) == i
      && (i > 0 ==> without[i] == sections[i])
      && forall j :: 1 <= j < |sections| && (Eligible(without[j]) || Eligible(sections[j])) ==>
           without[j] == sections[j]
  {
    var without := sections[k := NOT_FOUND];
    var i, j := LastEligible(sections, |sections|), LastEligible(without, |without|);
    assert j > 0 ==> Eligible(sections[j]);
    assert i > 0 ==> Eligible(without[i]);
  }

  /** Any copy goes through 16 bits: its length is the block's modulo 65536, and it
      is that many of the block's first bytes. */
  lemma LengthGoesThroughSixteenBits(data: seq<u8>)
    ensures var (length, copy) := Copied(data);
      && length <= |data| && (|data| - length) % 65536 == 0 && copy == data[..length]
  {
  }

  /** A section that fits 16 bits is copied exactly. */
  lemma FittingSectionIsExact(data: seq<u8>)
    ensures Copied(data) == (|data|, data) <==> |data| < 0x1_0000
  {
    if |data| < 0x1_0000 {
      assert data[..|data|] == data;
    }
  }

  predicate Named(s: Section, name: string) {
    Eligible(s) && s.name == Some(name)
  }

  /** The requested name plays no part: what comes out is the requested section
      exactly when no eligible section follows it, whatever the name. */
  lemma RequestedOnlyIfLast(sections: seq<Section>, k: nat)
    requires 1 <= k < |sections| && Eligible(sections[k])
    ensures LastEligible(sections, |sections|) == k <==> forall j :: k < j < |sections| ==> !Eligible(sections[j])
  {
    var last := LastEligible(sections, |sections|);
    assert last >= k;
  }

  /** So when the requested section is the only eligible one, it is the one sent. */
  lemma OnlyEligibleIsSent(sections: seq<Section>, k: nat, name: string)
    requires 1 <= k < |sections| && Named(sections[k], name)
    requires forall j :: 1 <= j < |sections| && j != k ==> !Eligible(sections[j])
    ensures LastEligible(sections, |sections|) == k
  {
    RequestedOnlyIfLast(sections, k);
  }

  /** And when another one follows, it is not. */
  lemma WrongSectionExample(a: seq<u8>, b: seq<u8>)
    requires a != b
    ensures var none := Section(false, false, false, None, 0, []);
      var wanted := Section(true, true, true, Some("prog"), 1, [a]);
      var other := Section(true, true, true, Some("license"), 1, [b]);
      var sections := [none, wanted, other];
      Named(sections[1], "prog") && LastEligible(sections, 3) == 2 && Data(sections[2]) != Data(sections[1])
  {
  }
}
