/**
 Two concrete packets that the compressor builds and the reader does not read back as
 written (network/lwip_mdns/mdns_server.c, `mdns_compress_domain`).
 */
module MdnsLimits {
  import opened MdnsName
  import opened MdnsCompress

  // ----- a match inside a label -----

  // The names "\2"."q" at 12, and "x\3ab"."\2"."q" at 17, compressed against the first.
  function MisalignedByte(i: nat): byte {
    if i == 12 || i == 14 then 1 else if i == 13 then 2 else if i == 15 then 0x71
    else if i == 17 then 4 else if i == 18 then 0x78 else if i == 19 then 3 else if i == 20 then 0x61
    else if i == 21 then 0x62 else if i == 22 then 0xC0 else if i == 23 then 12 else 0
  }

  const MISALIGNED: seq<byte> := seq(24, i requires 0 <= i => MisalignedByte(i))
  const OLD_NAME: seq<byte> := [4, 0x78, 3, 0x61, 0x62, 1, 2, 1, 0x71, 0]
  const NEW_NAME: seq<byte> := [3, 0x61, 0x62, 1, 2, 1, 0x71, 0]

  /** Without the condition on label characters the compressor takes the tail of a label for a
      label: it replaces all of the new name by a pointer to 19, where the packet does not spell it. */
  lemma MisalignedExample()
    ensures Denotes(MISALIGNED, 17, OLD_NAME, 0, 1) && WellFormed(NEW_NAME, 0)
    ensures End(MISALIGNED, 17) == 24 && Match(NEW_NAME, OLD_NAME, 24 - 17, 0)
    ensures MatchPos(NEW_NAME, OLD_NAME, 0) == 2 && !Means(MISALIGNED, 19, NEW_NAME, 0)
  {
    var p, t, d := MISALIGNED, OLD_NAME, NEW_NAME;
    OldNameHeld();
    NewNameParses();
    assert Match(d, t, 7, 0);
    MatchMeaning(p, 17, t, 1, d, 0);
  }

  lemma OldNameHeld()
    ensures Denotes(MISALIGNED, 17, OLD_NAME, 0, 1) && WellFormed(OLD_NAME, 0) && End(MISALIGNED, 17) == 24
  {
    var p, t := MISALIGNED, OLD_NAME;
    assert Denotes(p, 16, t, 9, 0);
    assert Denotes(p, 14, t, 7, 0);
    assert Denotes(p, 12, t, 5, 0);
    assert JumpTarget(p[22], p[23]) == 12;
    assert Denotes(p, 22, t, 5, 1);
    DenotesWellFormed(p, 17, t, 0, 1);
    assert End(p, 22) == 24;
  }

  lemma NewNameParses()
    ensures WellFormed(NEW_NAME, 0) && !Boundary(NEW_NAME, 0, 3)
  {
    var d := NEW_NAME;
    assert WellFormed(d, 7) && WellFormed(d, 4);
  }

  // ----- a chain of six pointers -----

  // "a", then "b" and a pointer to it, "c" and a pointer to that, and so on up to "g".
  function ChainByte(i: nat): byte
    requires i < 39
  {
    if i < 12 then 0
    else if i < 15 then (if i == 12 then 1 else if i == 13 then 0x61 else 0)
    else
      var k := (i - 15) / 4;
      match (i - 15) % 4
      case 0 => 1
      case 1 => 0x62 + k
      case 2 => 0xC0
      case _ => if k == 0 then 12 else 11 + 4 * k
  }

  // The labels from "first" down to "a".
  function Descending(first: byte): seq<byte>
    requires 0x61 <= first <= 0x67
  {
    seq(2 * (first - 0x60) + 1, i requires 0 <= i <= 2 * (first - 0x60) =>
      if i == 2 * (first - 0x60) then 0 else if i % 2 == 0 then 1 else first - i / 2)
  }

  const CHAIN: seq<byte> := seq(39, i requires 0 <= i < 39 => ChainByte(i))
  const LONGEST: seq<byte> := Descending(0x67)
  const SECOND: seq<byte> := Descending(0x66)

  /** Each name of the chain but the last reads back; the last one is spelled out by the packet
      and matched by the compressor's test, but takes six jumps and is refused. */
  lemma ChainExample()
    ensures Denotes(CHAIN, 31, SECOND, 0, 5) && ReadName(CHAIN, 31) == Read(SECOND, 35)
    ensures Match(LONGEST, SECOND, 35 - 31, 2)
    ensures Denotes(CHAIN, 35, LONGEST, 0, 6) && ReadName(CHAIN, 35) == ReadError
  {
    hide Denotes, End, ReadLoop, ChainByte;
    ChainUpTo(5);
    ChainUpTo(6);
    ChainReads(CHAIN, LONGEST, SECOND);
  }

  lemma ChainBytes(k: nat)
    requires 1 <= k <= 6
    ensures |CHAIN| == 39 && |LONGEST| == 15
    ensures var at := 11 + 4 * k;
            CHAIN[at] == 1 && CHAIN[at + 1] == 0x61 + k && CHAIN[at + 2] == 0xC0 && CHAIN[at + 3] == if k == 1 then 12 else at - 4
    ensures LONGEST[12 - 2 * k] == 1 && LONGEST[13 - 2 * k] == 0x61 + k
  {
    var at := 11 + 4 * k;
    assert CHAIN[at] == ChainByte(at) && CHAIN[at + 1] == ChainByte(at + 1);
    assert CHAIN[at + 2] == ChainByte(at + 2) && CHAIN[at + 3] == ChainByte(at + 3);
  }

  // The k-th pointer of the chain.
  lemma {:induction false} ChainUpTo(k: nat)
    requires 1 <= k <= 6
    ensures Denotes(CHAIN, 11 + 4 * k, LONGEST, 12 - 2 * k, k) && End(CHAIN, 11 + 4 * k) == 15 + 4 * k
  {
    hide Denotes, End, ChainByte, Descending;
    var at := 11 + 4 * k;
    ChainBytes(k);
    if k == 1 {
      ChainStart();
      ChainLink(CHAIN, at, LONGEST, 10, 12, 0);
    } else {
      ChainUpTo(k - 1);
      ChainLink(CHAIN, at, LONGEST, 12 - 2 * k, at - 4, k - 1);
    }
  }

  lemma ChainStart()
    ensures Denotes(CHAIN, 12, LONGEST, 12, 0)
  {
    assert Denotes(CHAIN, 14, LONGEST, 14, 0);
  }

  // One letter and a pointer to the previous name.
  lemma ChainLink(p: seq<byte>, at: nat, n: seq<byte>, i: nat, target: nat, jumps: nat)
    requires at + 4 <= |p| && p[at] == 1 && p[at + 2] == 0xC0 && p[at + 3] == target
    requires i + 2 <= |n| && n[i] == 1 && n[i + 1] == p[at + 1] && DNS_HEADER_SIZE <= target < |p|
    requires Denotes(p, target, n, i + 2, jumps)
    ensures Denotes(p, at, n, i, jumps + 1)
    ensures End(p, at) == at + 4
  {
    assert JumpTarget(p[at + 2], p[at + 3]) == target;
    assert Denotes(p, at + 2, n, i + 2, jumps + 1);
    assert End(p, at + 2) == at + 4;
  }

  lemma ChainReads(p: seq<byte>, n: seq<byte>, m: seq<byte>)
    requires |n| <= DOMAIN_MAXLEN && |n| == |m| + 2 && SameBytes(m, 0, n, 2, |m|)
    requires Denotes(p, 31, n, 2, 5) && Denotes(p, 35, n, 0, 6)
    ensures Denotes(p, 31, m, 0, 5) && ReadName(p, 31) == Read(m, End(p, 31)) && ReadName(p, 35) == ReadError
  {
    hide Denotes, End, ReadLoop;
    DenotesSuffix(p, 31, n, 2, m, 0, 5, Below(0));
    ReadLoopComplete(p, 31, m, 0, 0, 5);
    ReadLoopComplete(p, 35, n, 0, 0, 6);
    assert m[..0] == [] && n[..0] == [];
  }
}
