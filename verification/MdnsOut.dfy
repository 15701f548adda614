/**
 The outgoing packet (network/lwip_mdns/mdns_server.c, `mdns_compress_domain`,
 `mdns_write_domain`, `mdns_add_question`, `mdns_add_answer`).
 */
module MdnsOut {
  import opened Basics
  import opened MdnsName
  import opened MdnsDomain
  import opened MdnsCompress
  import opened MdnsHeld
  import opened MdnsLayout

  const NUM_DOMAIN_OFFSETS := 10
  const OUTPACKET_SIZE := 500

  // ----- the compressor -----

  /** `mdns_compress_domain`: the earliest label boundary from which the rest of the name can be
      replaced by a pointer into the name at `offset`. Stopping at the first position at or
      beyond the old name's own pointer loses nothing. The scan ends within the name, unless that has
      256 bytes and nothing stops the scan before its end. */
  method CompressDomain(p: array<byte>, offset: nat, domain: Domain) returns (len: nat, jump: nat, lost: bool)
    requires domain.Valid() && WellFormed(domain.Bytes(), 0)
    requires p.Length + 1 < READNAME_ERROR && offset <= p.Length
    ensures ReadName(p[..], offset).ReadError? ==> len == domain.length && jump == offset && !lost
    ensures ReadName(p[..], offset).Read? ==>
              && var target := ReadName(p[..], offset);
              && var d := domain.Bytes();
              && target.next >= offset
              && (lost <==> RunsOff(d, target.name, (target.next - offset) % 256))
              && (!lost ==> FirstMatch(d, target.name, (target.next - offset) % 256, len))
              && (!lost && len < |d| ==> jump == offset + MatchPos(d, target.name, len))
  {
    hide RunsOff;
    var target := new Domain();
    var targetEnd := ReadNameInto(p, offset, target);
    if targetEnd == READNAME_ERROR {
      return domain.length, offset, false;
    }
    ReadNameEnd(p[..], offset);
    len, lost := FindMatch(domain.name[..domain.length], target.name[..target.length], (targetEnd - offset) % 256);
    jump := if !lost && len < domain.length then offset + target.length - (domain.length - len) else offset;
  }

  // The scan over the labels of d, against the bytes t of a name that takes tlen bytes.
  method FindMatch(d: seq<byte>, t: seq<byte>, tlen: nat) returns (len: nat, lost: bool)
    requires WellFormed(d, 0) && |d| <= DOMAIN_MAXLEN
    ensures lost <==> RunsOff(d, t, tlen)
    ensures !lost ==> FirstMatch(d, t, tlen, len)
  {
    var writelen := 0;
    while writelen < |d|
      invariant writelen < 256 && (writelen == |d| || Boundary(d, 0, writelen))
      invariant forall w: nat :: w < writelen && Boundary(d, 0, w) && |d| - w < 256 ==> !Halts(d, t, tlen, w)
      decreases |d| - writelen
    {
      var domainlen := (|d| - writelen) % 256;
      if domainlen <= |t| && domainlen > DOMAIN_JUMP_SIZE {
        var targetpos := |t| - domainlen;
        if targetpos + DOMAIN_JUMP_SIZE >= tlen {
          assert Halts(d, t, tlen, writelen);
          break;
        }
        SameSlices(d, writelen, t, targetpos);
        if d[writelen..] == t[targetpos..] {
          return writelen, false;
        }
      }
      var labellen := d[writelen];
      NextBoundary(d, 0, writelen);
      if writelen + 1 + labellen == 256 {
        return 0, true;
      }
      writelen := writelen + 1 + labellen;
    }
    return |d|, false;
  }

  lemma SameSlices(d: seq<byte>, w: nat, t: seq<byte>, pos: nat)
    requires w <= |d| && pos <= |t| && |d| - w == |t| - pos
    ensures SameBytes(d, w, t, pos, |d| - w) <==> d[w..] == t[pos..]
  {
    if SameBytes(d, w, t, pos, |d| - w) {
      forall i | 0 <= i < |d| - w ensures d[w..][i] == t[pos..][i] {
        assert d[w + i] == t[w + i + pos - w];
      }
    }
    if d[w..] == t[pos..] {
      forall x | w <= x < |d| ensures d[x] == t[x + pos - w] {
        assert d[x] == d[w..][x - w] == t[pos..][x - w];
      }
    }
  }

  // `pbuf_take_at` on a flat buffer: all of data or nothing.
  method PbufTakeAt(p: array<byte>, data: seq<byte>, offset: nat) returns (err: Err)
    modifies p
    ensures err.ERR_OK? <==> offset < p.Length && offset + |data| <= p.Length
    ensures !err.ERR_OK? ==> err == ERR_MEM && p[..] == old(p[..])
    ensures err.ERR_OK? ==> Written(old(p[..]), p[..], offset, data)
  {
    if offset < p.Length && offset + |data| <= p.Length {
      forall x | 0 <= x < |data| {
        p[offset + x] := data[x];
      }
      return ERR_OK;
    }
    return ERR_MEM;
  }

  class OutPacket {
    var pbuf: array?<byte>
    var writeOffset: nat
    var domainOffsets: seq<nat>
    // The names at the recorded offsets, and the bytes they are made of: everything written so
    // far but a field that is still to be filled in.
    ghost var known: map<nat, Stored>
    ghost var region: Region
    // The records written so far.
    ghost var log: seq<Entry>

    ghost predicate Sized()
      reads this
    {
      && |domainOffsets| == NUM_DOMAIN_OFFSETS
      && (pbuf != null ==>
            && pbuf.Length == OUTPACKET_SIZE && DNS_HEADER_SIZE <= writeOffset <= OUTPACKET_SIZE
            && forall i :: 0 <= i < NUM_DOMAIN_OFFSETS ==> domainOffsets[i] <= OUTPACKET_SIZE)
    }

    // The packet holds a name at every recorded offset.
    ghost predicate Inv()
      reads this, pbuf
    {
      && Sized()
      && (forall i :: 0 <= i < NUM_DOMAIN_OFFSETS && domainOffsets[i] != 0 ==> domainOffsets[i] in known)
      && (pbuf == null ==> known == map[])
      && (pbuf != null ==>
            && writeOffset == region.end && region.lo <= region.hi <= region.end
            && Known(pbuf[..], known, region))
    }

    /** Between calls, the packet consists of the header and the records of the log, each of
        which is laid out so that reading it back returns it. */
    ghost predicate Valid()
      reads this, pbuf
    {
      && Inv()
      && (pbuf == null ==> log == [])
      && (pbuf != null ==> region == Below(writeOffset) && EntriesAt(pbuf[..], log, writeOffset))
    }

    // No character of a recorded name is among these length bytes, and no length byte is not.
    ghost predicate Tame(lengths: set<byte>)
      reads this`known
    {
      TameNames(known, lengths)
    }

    constructor ()
      ensures Valid() && pbuf == null && log == [] && forall lengths :: Tame(lengths)
    {
      pbuf := null;
      writeOffset := 0;
      domainOffsets := seq(NUM_DOMAIN_OFFSETS, _ => 0);
      known := map[];
      region := Below(0);
      log := [];
    }

    // The compressor's view of one recorded name.
    method TryOffset(offset: nat, domain: Domain) returns (len: nat, jump: nat)
      requires Sized() && pbuf != null && offset <= OUTPACKET_SIZE
      requires domain.Valid() && NameOk(domain.Bytes())
      ensures len <= domain.length
      ensures len < domain.length ==> DOMAIN_JUMP_SIZE < domain.length - len && offset <= jump < offset + 256
      ensures Inv() && offset in known ==>
                && (len == domain.length ||
                    (CanCut(pbuf[..], known, offset, domain.Bytes(), len) && jump == offset + MatchPos(domain.Bytes(), known[offset].name, len)))
                && forall w: nat :: w < len ==> !CanCut(pbuf[..], known, offset, domain.Bytes(), w)
    {
      hide Denotes, End, ReadLoop, WellFormed, Within, Tight, Boundary;
      var lost;
      len, jump, lost := CompressDomain(pbuf, offset, domain);
      FirstMatchShort(pbuf[..], offset, domain.Bytes(), len);
      if Inv() && offset in known {
        ReadHeld(pbuf[..], offset, known[offset], region);
      }
    }

    // The shortest form over all recorded names.
    method ChooseCut(domain: Domain) returns (writelen: nat, jump: nat, ghost from: nat)
      requires Sized() && pbuf != null
      requires domain.Valid() && NameOk(domain.Bytes())
      ensures writelen <= domain.length
      ensures if writelen < domain.length then DOMAIN_JUMP_SIZE < domain.length - writelen && 0 < jump < 0x4000 else jump == 0
      ensures Inv() ==>
                && Chosen(pbuf[..], known, domain.Bytes(), writelen, jump, from)
                && NoBetter(pbuf[..], known, domainOffsets, domain.Bytes(), writelen)
                && BestChoice(pbuf[..], known, domainOffsets, domain.Bytes(), writelen, from)
    {
      hide Denotes, Within, Tight, End, WellFormed, CanCut, Match;
      ghost var p, d, fine := pbuf[..], domain.Bytes(), Inv();
      writelen := domain.length;
      jump := 0;
      from := 0;
      ghost var first := 0;
      if fine {
        ChoiceStart(p, known, domainOffsets, d);
      }
      for i := 0 to NUM_DOMAIN_OFFSETS
        invariant pbuf[..] == p && domain.Bytes() == d && writelen <= domain.length
        invariant if writelen < domain.length then DOMAIN_JUMP_SIZE < domain.length - writelen && 0 < jump < 0x4000 else jump == 0
        invariant fine ==> ChoiceSoFar(p, known, domainOffsets, d, i, writelen, jump, from, first)
      {
        var offset := domainOffsets[i];
        ghost var cut, j0, f0, k0 := writelen, jump, from, first;
        if offset != 0 {
          var len, j := TryOffset(offset, domain);
          assert pbuf[..] == p && domain.Bytes() == d;
          if len < writelen {
            writelen, jump, from, first := len, j, offset, i;
          }
          if fine {
            ChoiceTried(p, known, domainOffsets, d, i, cut, j0, f0, k0, len, j);
          }
        } else if fine {
          ChoiceSkipped(p, known, domainOffsets, d, i, writelen, jump, from, first);
        }
      }
      if fine {
        ChoiceEnd(p, known, domainOffsets, d, writelen, jump, from, first);
      }
    }

    // The name would be compressed against a recorded one that has five jumps already.
    ghost predicate IsDeep(domain: Domain)
      requires domain.Valid() && WellFormed(domain.Bytes(), 0)
      reads this, pbuf, domain, domain.name
    {
      pbuf != null && !domain.skipCompression && TooDeep(pbuf[..], known, domainOffsets, domain.Bytes())
    }

    // The name would be compressed against a place that does not mean the rest of it.
    ghost predicate IsCrooked(domain: Domain)
      requires domain.Valid() && WellFormed(domain.Bytes(), 0)
      reads this, pbuf, domain, domain.name
    {
      pbuf != null && !domain.skipCompression && Crooked(pbuf[..], known, domainOffsets, domain.Bytes())
    }

    // No character of the name is a length byte of any name.
    ghost predicate Plain(domain: Domain, lengths: set<byte>)
      requires domain.Valid() && WellFormed(domain.Bytes(), 0)
      reads this`known, domain, domain.name
    {
      Tame(lengths) && Over(domain.Bytes(), 0, lengths)
    }

    /** If no length byte occurs as a character, no name is crooked. */
    lemma PlainStraight(domain: Domain, lengths: set<byte>)
      requires Inv() && domain.Valid() && NameOk(domain.Bytes()) && Plain(domain, lengths)
      ensures !IsCrooked(domain)
    {
      hide Crooked;
      if pbuf != null {
        TameStraight(pbuf[..], known, region, domainOffsets, domain.Bytes(), lengths);
      }
    }

    // Record the offset of a new name in the first free slot, if there is one.
    method StoreOffset(offset: nat)
      requires |domainOffsets| == NUM_DOMAIN_OFFSETS
      modifies this`domainOffsets
      ensures |domainOffsets| == 10
      ensures forall i :: 0 <= i < 10 ==>
                domainOffsets[i] == if FirstFree(old(domainOffsets), i) then offset else old(domainOffsets)[i]
    {
      for i := 0 to NUM_DOMAIN_OFFSETS
        invariant domainOffsets == old(domainOffsets)
        invariant forall k :: 0 <= k < i ==> domainOffsets[k] != 0
      {
        if domainOffsets[i] == 0 {
          domainOffsets := domainOffsets[i := offset];
          break;
        }
      }
    }

    /** `mdns_write_domain`. The name reads back if and only if it is compressed against a place that means the
        rest of it, in a recorded name that does not have five jumps. If the place means the rest of it, the
        packet holds the name, in its shortest form over all recorded names, and all names held before. */
    method WriteDomain(domain: Domain) returns (err: Err, ghost s: Stored)
      requires Sized() && pbuf != null && pbuf != domain.name
      requires domain.Valid() && NameOk(domain.Bytes())
      modifies this`writeOffset, this`domainOffsets, this`known, this`region, pbuf
      ensures old(writeOffset) + domain.length <= OUTPACKET_SIZE ==> err.ERR_OK?
      ensures err.ERR_OK? ==>
                && Sized() && old(writeOffset) <= writeOffset <= old(writeOffset) + domain.length
                && SameOn(old(pbuf[..]), pbuf[..], Below(old(writeOffset)))
      ensures err.ERR_OK? && old(Inv()) ==>
                && region == Region(old(region).lo, old(region).hi, writeOffset)
                && (ReadName(pbuf[..], old(writeOffset)) == Read(domain.Bytes(), writeOffset) <==> !old(IsCrooked(domain)) && !old(IsDeep(domain)))
                && (old(IsCrooked(domain)) ==> Hopeless(pbuf[..], old(writeOffset), domain.Bytes(), region))
      ensures err.ERR_OK? && old(Inv()) && !old(IsCrooked(domain)) ==>
                && Inv() && s.name == domain.Bytes() && (s.jumps > MAX_JUMPS <==> old(IsDeep(domain)))
                && (s.jumps == 0 || exists o :: o in old(known) && s.jumps == old(known)[o].jumps + 1)
                && (known == old(known) || known == old(known)[old(writeOffset) := s])
                && Holds(pbuf[..], old(writeOffset), s, region)
                && End(pbuf[..], old(writeOffset)) == writeOffset
      ensures err.ERR_OK? && old(Inv()) && !domain.skipCompression ==>
                exists cut :: && 0 <= cut <= domain.length && writeOffset == old(writeOffset) + NameSize(domain.length, cut)
                              && NoBetter(old(pbuf[..]), old(known), old(domainOffsets), domain.Bytes(), cut)
    {
      hide Denotes, Within, Tight, End, WellFormed, Match, Boundary, Known, Holds, NoBetter, NameBytes, CanCut, BestChoice, TooDeep,
           Crooked, Straight, ReadName, Hopeless;
      var writelen, jump := domain.length, 0;
      ghost var from := 0;
      ghost var d, p, w, fine := domain.Bytes(), pbuf[..], writeOffset, Inv();
      ghost var k0, r0, offsets := known, region, domainOffsets;
      assert domain.length > 0 by { NameNotEmpty(d); }
      if !domain.skipCompression {
        writelen, jump, from := ChooseCut(domain);
      }
      err := PutName(domain.name[..domain.length], writelen, jump);
      s := Stored(d, 0);
      if err.ERR_OK? {
        region := Region(region.lo, region.hi, writeOffset);
        WrittenBelow(p, pbuf[..], w, d, writelen, jump);
        if fine {
          if domain.skipCompression {
            WholeChosen(p, k0, d);
          }
          s := NameRecorded(p, pbuf[..], k0, offsets, r0, d, writelen, jump, from, domain.skipCompression);
          if writelen > 0 && Straight(p, k0, d, writelen, from) {
            known := known[w := s];
          }
        }
      }
    }

    // The two writes of `mdns_write_domain`: labels up to writelen, then the pointer.
    method PutName(d: seq<byte>, writelen: nat, jump: nat) returns (err: Err)
      requires pbuf != null && |domainOffsets| == NUM_DOMAIN_OFFSETS && writeOffset <= pbuf.Length
      requires writelen <= |d| && NameSize(|d|, writelen) <= |d|
      requires if writelen < |d| then 0 < jump < 0x4000 else jump == 0 && writelen > 0
      modifies this`writeOffset, this`domainOffsets, pbuf
      ensures err.ERR_OK? <==> old(writeOffset) + NameSize(|d|, writelen) <= pbuf.Length
      ensures err.ERR_OK? ==>
                && writeOffset == old(writeOffset) + NameSize(|d|, writelen)
                && NameBytes(old(pbuf[..]), pbuf[..], old(writeOffset), d, writelen, jump)
                && |domainOffsets| == NUM_DOMAIN_OFFSETS
                && (forall i :: 0 <= i < NUM_DOMAIN_OFFSETS ==>
                     domainOffsets[i] == if writelen > 0 && FirstFree(old(domainOffsets), i) then old(writeOffset) else old(domainOffsets)[i])
    {
      ghost var p, w := pbuf[..], writeOffset;
      if writelen > 0 {
        err := PbufTakeAt(pbuf, d[..writelen], writeOffset);
        if err != ERR_OK {
          return;
        }
        StoreOffset(writeOffset);
        writeOffset := writeOffset + writelen;
      }
      ghost var p' := pbuf[..];
      if jump != 0 {
        err := PbufTakeAt(pbuf, U16(0xC000 + jump), writeOffset);
        if err != ERR_OK {
          return;
        }
        writeOffset := writeOffset + DOMAIN_JUMP_SIZE;
      }
      NameBytesWritten(p, p', pbuf[..], w, d, writelen, jump);
      err := ERR_OK;
    }

    // One field at the write offset.
    method PutField(data: seq<byte>) returns (err: Err)
      requires Sized() && pbuf != null
      modifies this`writeOffset, this`region, pbuf
      ensures Sized()
      ensures err.ERR_OK? <==> old(writeOffset) < OUTPACKET_SIZE && old(writeOffset) + |data| <= OUTPACKET_SIZE
      ensures err.ERR_OK? ==>
                && writeOffset == old(writeOffset) + |data|
                && region == Region(old(region).lo, old(region).hi, writeOffset)
                && Written(old(pbuf[..]), pbuf[..], old(writeOffset), data)
      ensures !err.ERR_OK? ==> writeOffset == old(writeOffset) && region == old(region) && pbuf[..] == old(pbuf[..])
      ensures old(Inv()) ==> Inv()
    {
      hide Denotes, Within, Tight, End, WellFormed;
      ghost var p, r, fine := pbuf[..], region, Inv();
      err := PbufTakeAt(pbuf, data, writeOffset);
      if err == ERR_OK {
        writeOffset := writeOffset + |data|;
        region := Region(region.lo, region.hi, writeOffset);
        if fine {
          KnownFrame(p, pbuf[..], known, r, region);
        }
      }
    }

    // A buffer is allocated with the first record.
    method Open()
      requires Valid()
      modifies this`pbuf, this`writeOffset, this`region
      ensures Valid() && pbuf != null && log == old(log)
      ensures old(pbuf) != null ==> pbuf == old(pbuf) && writeOffset == old(writeOffset)
      ensures old(pbuf) == null ==> fresh(pbuf) && writeOffset == DNS_HEADER_SIZE && known == map[]
    {
      if pbuf == null {
        pbuf := new byte[OUTPACKET_SIZE];
        writeOffset := DNS_HEADER_SIZE;
        region := Below(DNS_HEADER_SIZE);
      }
    }

    // The body of `mdns_add_question`: name, type and class, if there is room for their longest form.
    method PutHead(domain: Domain, typ: nat, klass: nat, flag: bool) returns (err: Err, ghost h: Head)
      requires Inv() && pbuf != null && region == Below(writeOffset) && pbuf != domain.name
      requires domain.Valid() && NameOk(domain.Bytes())
      requires typ < 0x10000 && klass < 0x10000
      modifies this`writeOffset, this`domainOffsets, this`known, this`region, pbuf
      ensures Sized() && region == Below(writeOffset)
      ensures err.ERR_OK? <==> old(writeOffset) + domain.length + 4 <= OUTPACKET_SIZE
      ensures err.ERR_OK? ==>
                && SameOn(old(pbuf[..]), pbuf[..], Below(old(writeOffset)))
                && old(writeOffset) <= writeOffset <= old(writeOffset) + domain.length + 4
                && (old(IsCrooked(domain)) ==> Hopeless(pbuf[..], old(writeOffset), domain.Bytes(), Below(writeOffset)))
      ensures err.ERR_OK? && !old(IsCrooked(domain)) ==>
                && Inv()
                && h == Head(Stored(domain.Bytes(), h.s.jumps), typ, klass, flag)
                && (h.s.jumps > MAX_JUMPS <==> old(IsDeep(domain)))
                && HeadAt(pbuf[..], h, old(writeOffset), writeOffset)
                && (known == old(known) || known == old(known)[old(writeOffset) := h.s])
      ensures !err.ERR_OK? ==> Inv() && writeOffset == old(writeOffset) && pbuf[..] == old(pbuf[..]) && known == old(known)
    {
      hide Denotes, Within, Tight, End, WellFormed, NoBetter, NameSize, Known, HeadAt, Holds, Match, TooDeep, Crooked, ReadName, Hopeless;
      h := Head(Stored([], 0), typ, klass, flag);
      if writeOffset + domain.length + 4 > pbuf.Length {
        return ERR_MEM, h;
      }
      ghost var at, p, crooked := writeOffset, pbuf[..], IsCrooked(domain);
      ghost var s;
      err, s := WriteDomain(domain);
      ghost var p1, w1, r1 := pbuf[..], writeOffset, region;
      err := PutField(U16(typ));
      ghost var p2 := pbuf[..];
      err := PutField(U16(ClassWord(klass, flag)));
      h := Head(s, typ, klass, flag);
      FieldsBelow(p, p1, p2, pbuf[..], at, w1, U16(typ), U16(ClassWord(klass, flag)));
      if crooked {
        HopelessLater(p1, pbuf[..], at, domain.Bytes(), r1, Below(writeOffset));
      } else {
        HeadWritten(p1, p2, pbuf[..], h, at, w1);
        KnownFrame(pbuf[..], pbuf[..], known, region, Below(writeOffset));
      }
      region := Below(writeOffset);
    }

    /** `mdns_add_question`. A question is refused only for lack of room, and then nothing is
        written; otherwise it follows the records already there. Its name reads back if and only if it is
        neither crooked nor too deep. */
    method AddQuestion(domain: Domain, typ: nat, klass: nat, unicast: bool) returns (err: Err)
      requires Valid() && pbuf != domain.name
      requires domain.Valid() && NameOk(domain.Bytes())
      requires typ < 0x10000 && klass < 0x10000
      modifies this, pbuf
      ensures err.ERR_OK? <==> (if old(pbuf) == null then 12 else old(writeOffset)) + domain.length + 4 <= 500
      ensures !err.ERR_OK? ==> Valid() && log == old(log) && known == old(known)
      ensures err.ERR_OK? && !old(IsCrooked(domain)) ==>
                && Valid()
                && |log| == |old(log)| + 1 && log[..|old(log)|] == old(log)
                && IsQuestion(log[|old(log)|], domain.Bytes(), typ, klass, unicast)
                && (log[|old(log)|].head.s.jumps > MAX_JUMPS <==> old(IsDeep(domain)))
                && QuestionWire(pbuf[..], if old(pbuf) == null then DNS_HEADER_SIZE else old(writeOffset), writeOffset, typ, klass, unicast)
                && forall lengths :: old(Plain(domain, lengths)) ==> Tame(lengths)
      ensures err.ERR_OK? && old(IsCrooked(domain)) ==>
                pbuf != null && Hopeless(pbuf[..], old(writeOffset), domain.Bytes(), Below(writeOffset))
    {
      hide Denotes, Within, Tight, End, WellFormed, Over, Known, HeadAt, EntryAt, EntriesAt, Holds, TooDeep, Crooked, Hopeless, QuestionWire;
      ghost var crooked := IsCrooked(domain);
      Open();
      NothingKnown(pbuf[..], domainOffsets, domain.Bytes());
      ghost var at, p, k0 := writeOffset, pbuf[..], known;
      ghost var h;
      err, h := PutHead(domain, typ, klass, unicast);
      if err == ERR_OK && !crooked {
        log := AppendQuestion(p, pbuf[..], log, at, h, writeOffset);
        LastEntry(pbuf[..], log, writeOffset);
        EntryWire(pbuf[..], Entry(at, h, None), writeOffset);
        TameAfter(k0, known, at, h.s);
      }
    }

    /** `mdns_add_answer`. After success the answer follows the records already there, with its
        length field filled in, if its names are not crooked. The result of writing the head is not looked at:
        when the head does not fit, a later write fails. */
    method AddAnswer(domain: Domain, typ: nat, klass: nat, cacheFlush: bool, ttl: nat, buf: Option<seq<byte>>, answerDomain: Domain?, ghost lengths: set<byte>)
      returns (err: Err)
      requires Valid() && pbuf != domain.name
      requires domain.Valid() && NameOk(domain.Bytes())
      requires answerDomain != null ==> pbuf != answerDomain.name && answerDomain.Valid() && NameOk(answerDomain.Bytes())
      requires typ < 0x10000 && klass < 0x10000 && ttl < 0x1_0000_0000
      modifies this, pbuf
      ensures WorstCase(old(pbuf) == null, old(writeOffset), domain, buf, answerDomain) <= OUTPACKET_SIZE - Slack(buf, answerDomain != null) ==> err.ERR_OK?
      ensures WorstCase(old(pbuf) == null, old(writeOffset), domain, buf, answerDomain) > OUTPACKET_SIZE ==> !err.ERR_OK?
      ensures WorstCase(old(pbuf) == null, old(writeOffset), domain, buf, answerDomain) > OUTPACKET_SIZE && |TakenBytes(buf)| <= OUTPACKET_SIZE ==>
                && Valid() && log == old(log) && known == old(known)
                && (old(pbuf) != null ==> pbuf == old(pbuf) && pbuf[..] == old(pbuf[..]) && writeOffset == old(writeOffset))
      ensures err.ERR_OK? && old(IsCrooked(domain)) ==>
                pbuf != null && Hopeless(pbuf[..], old(writeOffset), domain.Bytes(), Below(writeOffset))
      ensures err.ERR_OK? && old(Fits(domain, answerDomain, lengths)) ==>
                && Valid()
                && |log| == |old(log)| + 1 && log[..|old(log)|] == old(log)
                && IsAnswer(log[|old(log)|], domain.Bytes(), typ, klass, cacheFlush, ttl, TakenBytes(buf),
                            if answerDomain == null then None else Some(answerDomain.Bytes()))
                && (log[|old(log)|].head.s.jumps > MAX_JUMPS <==> old(IsDeep(domain)))
                && AnswerWire(pbuf[..], if old(pbuf) == null then DNS_HEADER_SIZE else old(writeOffset), writeOffset, typ, klass, cacheFlush, ttl, TakenBytes(buf))
                && (old(Plain(domain, lengths)) ==> Tame(lengths))
    {
      hide Denotes, Within, Tight, End, WellFormed, Over, NoBetter, Known, HeadAt, RdataAt, EntryAt, EntriesAt, Holds, TakenBytes, AnswerWire, TooDeep, Crooked, Hopeless;
      Open();
      NothingKnown(pbuf[..], domainOffsets, domain.Bytes());
      var data := TakenBytes(buf);
      var answerLen := (domain.length + 10 + |data| + (if answerDomain == null then 0 else answerDomain.length)) % 0x10000;
      if writeOffset + answerLen > pbuf.Length {
        return ERR_MEM;
      }
      err := PutAnswer(domain, typ, klass, cacheFlush, ttl, buf, answerDomain, lengths);
    }

    // The names of an answer are not crooked: for one that is written when there is another one in front of it,
    // that is known if no length byte occurs as a character.
    ghost predicate Fits(domain: Domain, answerDomain: Domain?, lengths: set<byte>)
      requires domain.Valid() && WellFormed(domain.Bytes(), 0)
      requires answerDomain != null ==> answerDomain.Valid() && WellFormed(answerDomain.Bytes(), 0)
      reads this, pbuf, domain, domain.name, answerDomain, if answerDomain == null then {} else {answerDomain.name}
    {
      !IsCrooked(domain) && (answerDomain != null ==> Plain(domain, lengths) && Over(answerDomain.Bytes(), 0, lengths))
    }

    // Head, then the rest; the result of the head is dropped.
    method PutAnswer(domain: Domain, typ: nat, klass: nat, flag: bool, ttl: nat, buf: Option<seq<byte>>, answerDomain: Domain?, ghost lengths: set<byte>)
      returns (err: Err)
      requires Valid() && pbuf != null && pbuf != domain.name
      requires domain.Valid() && NameOk(domain.Bytes())
      requires answerDomain != null ==> pbuf != answerDomain.name && answerDomain.Valid() && NameOk(answerDomain.Bytes())
      requires typ < 0x10000 && klass < 0x10000 && ttl < 0x1_0000_0000
      requires |TakenBytes(buf)| <= OUTPACKET_SIZE ==> WorstCase(false, writeOffset, domain, buf, answerDomain) <= OUTPACKET_SIZE
      modifies this`writeOffset, this`domainOffsets, this`known, this`region, this`log, pbuf
      ensures WorstCase(false, old(writeOffset), domain, buf, answerDomain) <= OUTPACKET_SIZE - Slack(buf, answerDomain != null) ==> err.ERR_OK?
      ensures |TakenBytes(buf)| > OUTPACKET_SIZE ==> !err.ERR_OK?
      ensures err.ERR_OK? && old(IsCrooked(domain)) ==> Hopeless(pbuf[..], old(writeOffset), domain.Bytes(), Below(writeOffset))
      ensures err.ERR_OK? && old(Fits(domain, answerDomain, lengths)) ==>
                && Valid()
                && |log| == |old(log)| + 1 && log[..|old(log)|] == old(log)
                && IsAnswer(log[|old(log)|], domain.Bytes(), typ, klass, flag, ttl, TakenBytes(buf),
                            if answerDomain == null then None else Some(answerDomain.Bytes()))
                && (log[|old(log)|].head.s.jumps > MAX_JUMPS <==> old(IsDeep(domain)))
                && AnswerWire(pbuf[..], old(writeOffset), writeOffset, typ, klass, flag, ttl, TakenBytes(buf))
                && (old(Plain(domain, lengths)) ==> Tame(lengths))
    {
      hide Denotes, Within, Tight, End, WellFormed, Over, NoBetter, Known, HeadAt, RdataAt, EntryAt, EntriesAt, Holds, TakenBytes, AnswerWire, TooDeep,
           Crooked, Hopeless;
      ghost var crooked := IsCrooked(domain);
      ghost var at, p, fits, k0 := writeOffset, pbuf[..], Fits(domain, answerDomain, lengths), known;
      var headErr;
      ghost var h;
      headErr, h := PutHead(domain, typ, klass, flag);
      ghost var mid, p1, k1 := writeOffset, pbuf[..], known;
      if fits && headErr == ERR_OK {
        TameAfter(k0, known, at, h.s);
      }
      ghost var rd;
      err, rd := PutRdata(ttl, buf, answerDomain, lengths);
      if err == ERR_OK && crooked {
        HopelessLater(p1, pbuf[..], at, domain.Bytes(), Below(mid), Below(writeOffset));
      }
      if err == ERR_OK && fits {
        log := AppendAnswer(p, p1, pbuf[..], log, at, h, mid, rd, writeOffset);
        LastEntry(pbuf[..], log, writeOffset);
        EntryWire(pbuf[..], Entry(at, h, Some(rd)), writeOffset);
      }
    }

    // The name in the data of an answer is none, or not crooked.
    ghost predicate TargetFits(answerDomain: Domain?, lengths: set<byte>)
      requires answerDomain != null ==> answerDomain.Valid() && WellFormed(answerDomain.Bytes(), 0)
      reads this`known, answerDomain, if answerDomain == null then {} else {answerDomain.name}
    {
      answerDomain != null ==> Plain(answerDomain, lengths)
    }

    // The part of `mdns_add_answer` after the head: TTL, a gap for the length, data, name, and
    // then the length into the gap.
    method PutRdata(ttl: nat, buf: Option<seq<byte>>, answerDomain: Domain?, ghost lengths: set<byte>) returns (err: Err, ghost rd: Rdata)
      requires Sized() && pbuf != null && region == Below(writeOffset)
      requires answerDomain != null ==> pbuf != answerDomain.name && answerDomain.Valid() && NameOk(answerDomain.Bytes())
      requires ttl < 0x1_0000_0000
      requires |TakenBytes(buf)| <= OUTPACKET_SIZE ==>
                 writeOffset + 6 + |TakenBytes(buf)| + (if answerDomain == null then 0 else answerDomain.length) <= OUTPACKET_SIZE
      modifies this`writeOffset, this`domainOffsets, this`known, this`region, pbuf
      ensures old(writeOffset) + 6 + |TakenBytes(buf)| + (if answerDomain == null then 0 else answerDomain.length) <= OUTPACKET_SIZE - Slack(buf, answerDomain != null) ==> err.ERR_OK?
      ensures |TakenBytes(buf)| > OUTPACKET_SIZE ==> !err.ERR_OK?
      ensures err.ERR_OK? ==> old(writeOffset) <= writeOffset && SameOn(old(pbuf[..]), pbuf[..], Below(old(writeOffset)))
      ensures err.ERR_OK? && old(Inv()) && old(TargetFits(answerDomain, lengths)) ==>
                && Inv() && region == Below(writeOffset)
                && RdataAt(pbuf[..], rd, old(writeOffset), writeOffset, false)
                && rd.ttl == ttl && rd.data == TakenBytes(buf)
                && (answerDomain == null ==> rd.name.None?)
                && (answerDomain != null ==> rd.name.Some? && rd.name.value.name == answerDomain.Bytes())
                && (old(Tame(lengths)) ==> Tame(lengths))
    {
      hide Denotes, Within, Tight, End, Over, NoBetter, RdataAt, Holds, Known, ReadName, Crooked, TooDeep, Hopeless;
      assert answerDomain != null ==> answerDomain.length > 0;
      hide WellFormed;
      var at := writeOffset;
      ghost var fine, k0 := Inv() && TargetFits(answerDomain, lengths), known;
      err, rd := PutData(ttl, buf);
      if err != ERR_OK {
        return;
      }
      ghost var p, w := pbuf[..], writeOffset;
      if answerDomain != null {
        if fine {
          PlainStraight(answerDomain, lengths);
        }
        ghost var s;
        err, s := WriteDomain(answerDomain);
        if err != ERR_OK {
          return;
        }
        if fine {
          RdataNamed(p, pbuf[..], rd, at, s, writeOffset);
          rd := rd.(name := Some(s));
          TameAfter(k0, known, w, s);
        }
      }
      err := FillLength(at + 4, rd, fine);
    }

    // TTL, gap and data.
    method PutData(ttl: nat, buf: Option<seq<byte>>) returns (err: Err, ghost rd: Rdata)
      requires Sized() && pbuf != null && region == Below(writeOffset) && ttl < 0x1_0000_0000
      requires |TakenBytes(buf)| <= OUTPACKET_SIZE ==> writeOffset + 6 + |TakenBytes(buf)| <= OUTPACKET_SIZE
      modifies this`writeOffset, this`region, pbuf
      ensures old(writeOffset) + 6 + |TakenBytes(buf)| <= OUTPACKET_SIZE - Slack(buf, false) ==> err.ERR_OK?
      ensures |TakenBytes(buf)| > OUTPACKET_SIZE ==> !err.ERR_OK?
      ensures err.ERR_OK? ==>
                && Sized() && rd == Rdata(ttl, TakenBytes(buf), None)
                && writeOffset == old(writeOffset) + 6 + |TakenBytes(buf)|
                && region == Region(old(writeOffset) + 4, old(writeOffset) + 6, writeOffset)
                && SameOn(old(pbuf[..]), pbuf[..], Below(old(writeOffset)))
                && RdataAt(pbuf[..], rd, old(writeOffset), writeOffset, true)
                && (old(Inv()) ==> Inv())
    {
      hide Denotes, Within, Tight, End, WellFormed, RdataAt, Holds, NameOk, U32;
      ghost var at, p0, fine := writeOffset, pbuf[..], Inv();
      rd := Rdata(ttl, TakenBytes(buf), None);
      err := PutField(U32(ttl));
      if err != ERR_OK {
        return;
      }
      ghost var p, r := pbuf[..], region;
      writeOffset := writeOffset + 2;
      if buf.Some? {
        var data := buf.value[..|buf.value| % 0x10000];
        err := PbufTakeAt(pbuf, data, writeOffset);
        if err != ERR_OK {
          return;
        }
        writeOffset := writeOffset + |data|;
      }
      RdataStarted(p0, p, pbuf[..], TakenBytes(buf), ttl, at);
      region := Region(at + 4, at + 6, writeOffset);
      if fine {
        KnownFrame(p, pbuf[..], known, r, region);
      }
    }

    // The length goes into the gap when the size of the answer is known.
    method FillLength(rdlenOffset: nat, ghost rd: Rdata, ghost fine: bool) returns (err: Err)
      requires Sized() && pbuf != null && 4 <= rdlenOffset && rdlenOffset + 2 <= writeOffset
      requires fine ==> Inv() && region == Region(rdlenOffset, rdlenOffset + 2, writeOffset) && RdataAt(pbuf[..], rd, rdlenOffset - 4, writeOffset, true)
      modifies this`region, pbuf
      ensures err.ERR_OK? && Sized() && region == Below(writeOffset)
      ensures SameOn(old(pbuf[..]), pbuf[..], Below(rdlenOffset))
      ensures fine ==> Inv() && RdataAt(pbuf[..], rd, rdlenOffset - 4, writeOffset, false)
    {
      hide Denotes, Within, Tight, End, WellFormed, Holds, NameOk;
      ghost var p := pbuf[..];
      err := PbufTakeAt(pbuf, U16(writeOffset - (rdlenOffset + 2)), rdlenOffset);
      if fine {
        RdataClosed(p, pbuf[..], rd, rdlenOffset - 4, writeOffset);
        KnownFrame(p, pbuf[..], known, region, Below(writeOffset));
      }
      region := Below(writeOffset);
    }
  }

  // ----- the choice among the recorded names -----

  lemma NameNotEmpty(d: seq<byte>)
    requires WellFormed(d, 0)
    ensures |d| > 0
  {
  }

  // A match is longer than a pointer, and begins less than 256 bytes behind the name's start.
  lemma FirstMatchShort(p: seq<byte>, offset: nat, d: seq<byte>, len: nat)
    requires WellFormed(d, 0)
    ensures ReadName(p, offset).Read? && ReadName(p, offset).next >= offset && len < |d| &&
            FirstMatch(d, ReadName(p, offset).name, (ReadName(p, offset).next - offset) % 256, len) ==>
              DOMAIN_JUMP_SIZE < |d| - len && 0 <= MatchPos(d, ReadName(p, offset).name, len) < 256
    ensures forall t: seq<byte>, n: nat :: FirstMatch(d, t, n, len) ==> len <= |d|
  {
    hide ReadName;
  }

  // What is known after the first i offsets have been tried.
  ghost predicate ChoiceSoFar(p: seq<byte>, known: map<nat, Stored>, offsets: seq<nat>, d: seq<byte>, i: nat, cut: nat, jump: nat, from: nat, first: nat)
    requires WellFormed(d, 0)
  {
    && i <= |offsets| && Chosen(p, known, d, cut, jump, from) && NoBetter(p, known, offsets[..i], d, cut)
    && (cut != |d| ==> first < i && offsets[first] == from != 0 && forall k :: 0 <= k < first && offsets[k] != 0 ==> !CanCut(p, known, offsets[k], d, cut))
  }

  lemma ChoiceStart(p: seq<byte>, known: map<nat, Stored>, offsets: seq<nat>, d: seq<byte>)
    requires WellFormed(d, 0)
    ensures ChoiceSoFar(p, known, offsets, d, 0, |d|, 0, 0, 0)
  {
  }

  lemma ChoiceTried(p: seq<byte>, known: map<nat, Stored>, offsets: seq<nat>, d: seq<byte>, i: nat, cut: nat, jump: nat, from: nat, first: nat, len: nat, j: nat)
    requires WellFormed(d, 0) && i < |offsets| && offsets[i] != 0 && offsets[i] in known
    requires ChoiceSoFar(p, known, offsets, d, i, cut, jump, from, first)
    requires len == |d| || (CanCut(p, known, offsets[i], d, len) && j == offsets[i] + MatchPos(d, known[offsets[i]].name, len))
    requires len <= |d| && forall w: nat :: w < len ==> !CanCut(p, known, offsets[i], d, w)
    ensures if len < cut then ChoiceSoFar(p, known, offsets, d, i + 1, len, j, offsets[i], i)
            else ChoiceSoFar(p, known, offsets, d, i + 1, cut, jump, from, first)
  {
    hide CanCut;
    assert offsets[..i + 1] == offsets[..i] + [offsets[i]];
    NoBetterStep(p, known, offsets[..i], offsets[i], d, cut, if len < cut then len else cut);
    if len < cut {
      ChosenCut(p, known, d, cut, jump, from);
      forall k | 0 <= k < i && offsets[k] != 0 ensures !CanCut(p, known, offsets[k], d, len) {
        assert offsets[k] in offsets[..i];
      }
    }
  }

  lemma ChosenCut(p: seq<byte>, known: map<nat, Stored>, d: seq<byte>, cut: nat, jump: nat, from: nat)
    requires WellFormed(d, 0) && Chosen(p, known, d, cut, jump, from)
    ensures cut <= |d|
  {
  }

  lemma ChoiceSkipped(p: seq<byte>, known: map<nat, Stored>, offsets: seq<nat>, d: seq<byte>, i: nat, cut: nat, jump: nat, from: nat, first: nat)
    requires WellFormed(d, 0) && i < |offsets| && offsets[i] == 0 && ChoiceSoFar(p, known, offsets, d, i, cut, jump, from, first)
    ensures ChoiceSoFar(p, known, offsets, d, i + 1, cut, jump, from, first)
  {
    hide CanCut;
    assert offsets[..i + 1] == offsets[..i] + [0];
    NoBetterStep(p, known, offsets[..i], 0, d, cut, cut);
  }

  lemma ChoiceEnd(p: seq<byte>, known: map<nat, Stored>, offsets: seq<nat>, d: seq<byte>, cut: nat, jump: nat, from: nat, first: nat)
    requires WellFormed(d, 0) && ChoiceSoFar(p, known, offsets, d, |offsets|, cut, jump, from, first)
    ensures Chosen(p, known, d, cut, jump, from) && NoBetter(p, known, offsets, d, cut) && BestChoice(p, known, offsets, d, cut, from)
  {
    hide CanCut;
    assert offsets[..|offsets|] == offsets;
    if cut != |d| {
      assert CanCut(p, known, from, d, cut);
      assert BestAt(p, known, offsets, d, cut, first);
    }
  }

  lemma WholeChosen(p: seq<byte>, known: map<nat, Stored>, d: seq<byte>)
    requires WellFormed(d, 0)
    ensures Chosen(p, known, d, |d|, 0, 0) && Straight(p, known, d, |d|, 0)
  {
  }

  // ----- what has been written -----

  lemma WrittenBelow(p: seq<byte>, q: seq<byte>, w: nat, d: seq<byte>, cut: nat, jump: nat)
    requires NameBytes(p, q, w, d, cut, jump) && w <= |p|
    ensures SameOn(p, q, Below(w))
  {
  }

  // A name that has been written: what the packet holds then, and whether the name reads back.
  lemma NameRecorded(p: seq<byte>, q: seq<byte>, known: map<nat, Stored>, offsets: seq<nat>, r: Region, d: seq<byte>, cut: nat, jump: nat, from: nat, skip: bool)
    returns (s: Stored)
    requires Known(p, known, r) && NameOk(d)
    requires r.lo <= r.hi <= r.end <= |p| && DNS_HEADER_SIZE <= r.end < 0x4000
    requires Chosen(p, known, d, cut, jump, from) && NameBytes(p, q, r.end, d, cut, jump)
    requires if skip then cut == |d| else BestChoice(p, known, offsets, d, cut, from)
    ensures var r' := Region(r.lo, r.hi, r.end + NameSize(|d|, cut));
            var crooked, deep := !skip && Crooked(p, known, offsets, d), !skip && TooDeep(p, known, offsets, d);
            && (crooked <==> !Straight(p, known, d, cut, from))
            && (ReadName(q, r.end) == Read(d, r'.end) <==> !crooked && !deep)
            && (crooked ==> Hopeless(q, r.end, d, r'))
            && (!crooked ==>
                 && s.name == d && (s.jumps > MAX_JUMPS <==> deep) && (s.jumps == 0 || exists o :: o in known && s.jumps == known[o].jumps + 1)
                 && Holds(q, r.end, s, r') && End(q, r.end) == r'.end
                 && Known(q, known, r') && Known(q, known[r.end := s], r'))
  {
    hide Denotes, Within, Tight, End, WellFormed, Known, Holds, NameBytes, CanCut, BestChoice, TooDeep, Crooked, Straight, ReadName, Hopeless, Chosen;
    var r' := Region(r.lo, r.hi, r.end + NameSize(|d|, cut));
    if skip {
      StraightWhole(p, known, d, cut, from);
    } else {
      DeepChoice(p, known, offsets, d, cut, from);
    }
    s := Stored(d, 0);
    NameBytesEnd(p, q, r.end, d, cut, jump);
    if Straight(p, known, d, cut, from) {
      s := NameWritten(p, q, known, r, d, cut, jump, from);
      WrittenReads(p, q, known, offsets, r', r.end, s, d, cut, from, skip);
    } else {
      CrookedHopeless(p, q, known, r, d, cut, jump, from);
      HopelessUnread(q, r.end, d, r', r'.end);
    }
  }

  lemma StraightWhole(p: seq<byte>, known: map<nat, Stored>, d: seq<byte>, cut: nat, from: nat)
    requires cut == |d|
    ensures Straight(p, known, d, cut, from)
  {
  }

  lemma NameBytesEnd(p: seq<byte>, q: seq<byte>, w: nat, d: seq<byte>, cut: nat, jump: nat)
    requires NameBytes(p, q, w, d, cut, jump)
    ensures w + NameSize(|d|, cut) <= |q| == |p|
  {
  }

  // Fields written behind a name leave it as it is.
  lemma FieldsBelow(p: seq<byte>, p1: seq<byte>, p2: seq<byte>, q: seq<byte>, at: nat, w: nat, a: seq<byte>, b: seq<byte>)
    requires SameOn(p, p1, Below(at)) && at <= w && Written(p1, p2, w, a) && Written(p2, q, w + |a|, b) && |p| == |p1|
    ensures SameOn(p, q, Below(at)) && SameOn(p1, q, Below(w))
  {
    forall x: nat | Below(w).Has(x) ensures q[x] == p1[x] {
      assert p2[x] == p1[x];
    }
    forall x: nat | Below(at).Has(x) ensures q[x] == p[x] {
      assert p1[x] == p[x];
    }
  }

  lemma HopelessLater(p: seq<byte>, q: seq<byte>, w: nat, d: seq<byte>, r: Region, r': Region)
    requires Hopeless(p, w, d, r) && r.lo <= r.hi <= r.end <= r'.lo && SameOn(p, q, Below(r.end)) && r'.lo <= r'.hi && r'.end <= r'.hi
    ensures Hopeless(q, w, d, r')
  {
    hide Spells;
    forall q' | SameOn(q, q', r') ensures !Spells(q', w, d) {
      assert SameOn(p, q', r) by {
        forall x: nat | r.Has(x) ensures q'[x] == p[x] {
          assert q[x] == p[x];
        }
      }
    }
  }

  // Length bytes and characters stay apart.
  lemma TameAfter(before: map<nat, Stored>, known: map<nat, Stored>, w: nat, s: Stored)
    requires known == before || known == before[w := s]
    ensures forall lengths :: TameNames(before, lengths) && WellFormed(s.name, 0) && Over(s.name, 0, lengths) ==> TameNames(known, lengths)
  {
    hide WellFormed, Over;
  }

  ghost predicate TameNames(known: map<nat, Stored>, lengths: set<byte>) {
    forall o :: o in known ==> WellFormed(known[o].name, 0) && Over(known[o].name, 0, lengths)
  }

  // A buffer of no bytes cannot be taken at the very end of a packet.
  function Slack(buf: Option<seq<byte>>, named: bool): nat {
    if buf.Some? && TakenBytes(buf) == [] && !named then 1 else 0
  }

  // The space that the longest form of an answer would need.
  function WorstCase(first: bool, writeOffset: nat, domain: Domain, buf: Option<seq<byte>>, answerDomain: Domain?): nat
    reads domain, answerDomain
  {
    (if first then DNS_HEADER_SIZE else writeOffset) + domain.length + 10 + |TakenBytes(buf)| +
    (if answerDomain == null then 0 else answerDomain.length)
  }

  // Big-endian field, `lwip_htonl`.
  function U32(v: nat): (b: seq<byte>)
    requires v < 0x1_0000_0000
    ensures |b| == 4
  {
    U16(v / 0x10000) + U16(v % 0x10000)
  }

  lemma AppendQuestion(p: seq<byte>, q: seq<byte>, log: seq<Entry>, at: nat, h: Head, next: nat)
    returns (log': seq<Entry>)
    requires EntriesAt(p, log, at) && SameOn(p, q, Below(at)) && HeadAt(q, h, at, next)
    ensures log' == log + [Entry(at, h, None)] && EntriesAt(q, log', next)
  {
    hide Denotes, Within, Tight, WellFormed, End, Holds;
    EntriesFrame(p, q, log, at);
    var e := Entry(at, h, None);
    EntriesAppend(q, log, at, e, next);
    log' := log + [e];
  }

  lemma AppendAnswer(p: seq<byte>, p1: seq<byte>, q: seq<byte>, log: seq<Entry>, at: nat, h: Head, mid: nat, rd: Rdata, next: nat)
    returns (log': seq<Entry>)
    requires EntriesAt(p, log, at) && SameOn(p, p1, Below(at)) && at <= mid && SameOn(p1, q, Below(mid))
    requires HeadAt(p1, h, at, mid) && RdataAt(q, rd, mid, next, false)
    ensures log' == log + [Entry(at, h, Some(rd))] && EntriesAt(q, log', next)
  {
    hide Denotes, Within, Tight, WellFormed;
    HeadFrame(p1, q, h, at, mid);
    assert SameOn(p, q, Below(at));
    EntriesFrame(p, q, log, at);
    var e := Entry(at, h, Some(rd));
    EntriesAppend(q, log, at, e, next);
    log' := log + [e];
  }

  lemma RdataStarted(p0: seq<byte>, p: seq<byte>, q: seq<byte>, data: seq<byte>, ttl: nat, at: nat)
    requires ttl < 0x1_0000_0000 && Written(p0, p, at, U32(ttl))
    requires at + 6 <= |p| && (Written(p, q, at + 6, data) || (data == [] && q == p))
    ensures SameOn(p0, q, Below(at))
    ensures RdataAt(q, Rdata(ttl, data, None), at, at + 6 + |data|, true)
  {
    var f := U32(ttl);
    assert p[at] == f[0] && p[at + 1] == f[1] && p[at + 2] == f[2] && p[at + 3] == f[3];
    assert q[at] == p[at] && q[at + 1] == p[at + 1] && q[at + 2] == p[at + 2] && q[at + 3] == p[at + 3];
    forall x | 0 <= x < |data| ensures data[x] == q[x + (at + 6) - 0] {
    }
    forall x: nat | Below(at).Has(x) ensures q[x] == p0[x] {
      assert p[x] == p0[x];
    }
  }

  lemma RdataNamed(p: seq<byte>, q: seq<byte>, rd: Rdata, at: nat, s: Stored, next: nat)
    requires rd.name.None? && RdataAt(p, rd, at, at + 6 + |rd.data|, true)
    requires SameOn(p, q, Below(at + 6 + |rd.data|)) && next <= |q|
    requires NameFits(s) && Holds(q, at + 6 + |rd.data|, s, Region(at + 4, at + 6, next))
    requires End(q, at + 6 + |rd.data|) == next
    ensures RdataAt(q, rd.(name := Some(s)), at, next, true)
  {
    hide Denotes, Within, Tight, WellFormed;
    assert q[at] == p[at] && q[at + 1] == p[at + 1] && q[at + 2] == p[at + 2] && q[at + 3] == p[at + 3];
    forall x | 0 <= x < |rd.data| ensures rd.data[x] == q[x + (at + 6) - 0] {
      assert q[x + at + 6] == p[x + at + 6];
    }
  }

  // What is written of a buffer: its length is cut to 16 bits.
  function TakenBytes(buf: Option<seq<byte>>): seq<byte> {
    match buf
    case None => []
    case Some(data) => data[..|data| % 0x10000]
  }

  ghost predicate IsQuestion(e: Entry, name: seq<byte>, typ: nat, klass: nat, flag: bool) {
    e.rdata.None? && e.head == Head(Stored(name, e.head.s.jumps), typ, klass, flag)
  }

  ghost predicate IsAnswer(e: Entry, name: seq<byte>, typ: nat, klass: nat, flag: bool, ttl: nat, data: seq<byte>, target: Option<seq<byte>>) {
    && e.head == Head(Stored(name, e.head.s.jumps), typ, klass, flag)
    && e.rdata.Some? && e.rdata.value.ttl == ttl && e.rdata.value.data == data
    && match target {
         case None => e.rdata.value.name.None?
         case Some(n) => e.rdata.value.name.Some? && e.rdata.value.name.value.name == n
       }
  }

  predicate FirstFree(offsets: seq<nat>, i: nat) {
    i < |offsets| && offsets[i] == 0 && forall k :: 0 <= k < i ==> offsets[k] != 0
  }

  lemma HeadWritten(p: seq<byte>, p': seq<byte>, q: seq<byte>, h: Head, at: nat, w: nat)
    requires Holds(p, at, h.s, Region(at, at, w)) && End(p, at) == w && NameFits(h.s)
    requires h.typ < 0x10000 && h.klass < 0x10000
    requires Written(p, p', w, U16(h.typ)) && Written(p', q, w + 2, U16(ClassWord(h.klass, h.flag)))
    ensures HeadAt(q, h, at, w + 4)
  {
    hide Denotes, Within, Tight, WellFormed;
    assert SameOn(p, q, Below(w)) by {
      forall x: nat | Below(w).Has(x) ensures q[x] == p[x] {
        assert p'[x] == p[x];
      }
    }
    HoldsLarger(p, at, h.s, Region(at, at, w), Below(w));
    HoldsIn(p, q, at, h.s, Below(w), w + 4);
    var f, g := U16(h.typ), U16(ClassWord(h.klass, h.flag));
    assert p'[w] == f[0] && p'[w + 1] == f[1];
    assert q[w] == p'[w] && q[w + 1] == p'[w + 1] && q[w + 2] == g[0] && q[w + 3] == g[1];
  }
}
