/**
 The mutable `struct mdns_domain` and the loops that fill it from labels and from
 packets (network/lwip_mdns/mdns_server.c).
 */
module MdnsDomain {
  import opened MdnsName

  datatype Err = ERR_OK | ERR_VAL | ERR_ARG | ERR_MEM

  class Domain {
    const name: array<byte>
    var length: nat
    var skipCompression: bool

    ghost predicate Valid()
      reads this
    {
      name.Length == DOMAIN_MAXLEN && length <= DOMAIN_MAXLEN
    }

    // The bytes collected so far.
    function Bytes(): seq<byte>
      requires Valid()
      reads this, name
    {
      name[..length]
    }

    constructor ()
      ensures Valid() && Bytes() == [] && fresh(name) && !skipCompression
    {
      name := new byte[DOMAIN_MAXLEN];
      length := 0;
      skipCompression := false;
    }

    // `mdns_domain_add_label_base`: room for the label and one more byte, or for the zero marker.
    method AddLabelBase(len: byte) returns (err: Err)
      requires Valid()
      modifies this`length, name
      ensures Valid()
      ensures err.ERR_OK? <==> FitsLabel(old(length), len)
      ensures err.ERR_OK? ==> Bytes() == old(Bytes()) + [len]
      ensures !err.ERR_OK? ==> err == ERR_VAL && Bytes() == old(Bytes())
    {
      if len > LABEL_MAXLEN {
        return ERR_VAL;
      }
      if len > 0 && 1 + len + length >= DOMAIN_MAXLEN {
        return ERR_VAL;
      }
      if len == 0 && 1 + length > DOMAIN_MAXLEN {
        return ERR_VAL;
      }
      name[length] := len;
      length := length + 1;
      return ERR_OK;
    }

    // `mdns_domain_add_label`
    method AddLabel(text: seq<byte>) returns (err: Err)
      requires Valid() && |text| < 256
      modifies this`length, name
      ensures Valid()
      ensures err.ERR_OK? <==> FitsLabel(old(length), |text|)
      ensures err.ERR_OK? ==> Bytes() == old(Bytes()) + [|text|] + text
      ensures !err.ERR_OK? ==> err == ERR_VAL && Bytes() == old(Bytes())
    {
      err := AddLabelBase(|text|);
      if err != ERR_OK {
        return;
      }
      if |text| > 0 {
        CopyIn(text);
      }
    }

    // `mdns_domain_add_label_pbuf`: the text comes from packet p at offset.
    method AddLabelPbuf(p: array<byte>, offset: nat, len: byte) returns (err: Err)
      requires Valid() && p != name
      modifies this`length, name
      ensures Valid()
      ensures err.ERR_OK? <==> FitsLabel(old(length), len) && (len > 0 ==> offset + len <= p.Length)
      ensures err.ERR_OK? && len > 0 ==> Bytes() == old(Bytes()) + [len] + p[offset..offset + len]
      ensures err.ERR_OK? && len == 0 ==> Bytes() == old(Bytes()) + [0]
      ensures !err.ERR_OK? ==> Bytes() == old(Bytes())
    {
      err := AddLabelBase(len);
      if err != ERR_OK {
        return;
      }
      if len > 0 {
        if offset + len > p.Length {
          // take back the increment
          length := length - 1;
          return ERR_ARG;
        }
        CopyIn(p[offset..offset + len]);
      }
    }

    method CopyIn(text: seq<byte>)
      requires Valid() && length + |text| <= DOMAIN_MAXLEN
      modifies this`length, name
      ensures Valid() && Bytes() == old(Bytes()) + text
    {
      var i := 0;
      while i < |text|
        invariant 0 <= i <= |text|
        invariant length == old(length)
        invariant name[..length + i] == old(Bytes()) + text[..i]
      {
        name[length + i] := text[i];
        i := i + 1;
      }
      length := length + |text|;
    }
  }

  predicate FitsLabel(length: nat, len: nat) {
    && len <= 63
    && (len > 0 ==> 1 + len + length < 256)
    && (len == 0 ==> 1 + length <= 256)
  }

  // What a caller sees of a result.
  function Offset(r: ReadResult): nat {
    if r.Read? then r.next else READNAME_ERROR
  }

  /** `mdns_readname_loop`. It terminates on every packet: each jump spends one of the
      five levels of depth, each label spends room in the 256-byte name. */
  method ReadNameLoop(p: array<byte>, start: nat, domain: Domain, depth: nat) returns (next: nat)
    requires domain.Valid() && p != domain.name
    requires p.Length + 1 < READNAME_ERROR && start <= p.Length
    modifies domain`length, domain.name
    ensures domain.Valid()
    ensures next == Offset(ReadLoop(p[..], start, old(domain.Bytes()), depth))
    ensures ReadLoop(p[..], start, old(domain.Bytes()), depth).Read? ==>
              && next != READNAME_ERROR
              && domain.Bytes() == ReadLoop(p[..], start, old(domain.Bytes()), depth).name
    decreases MAX_JUMPS + 1 - depth
  {
    hide ReadLoop, JumpTarget;
    var offset := start;
    ghost var pkt := p[..];
    ghost var result := ReadLoop(pkt, start, domain.Bytes(), depth);
    while true
      invariant domain.Valid() && 0 <= offset <= p.Length && p[..] == pkt
      invariant result == ReadLoop(pkt, offset, domain.Bytes(), depth)
      decreases DOMAIN_MAXLEN - domain.length
    {
      ReadStep(pkt, offset, domain.Bytes(), depth);
      if depth > MAX_JUMPS {
        return READNAME_ERROR;
      }
      var c: byte := if offset < p.Length then p[offset] else 0;
      offset := offset + 1;
      if IsJump(c) {
        if offset >= p.Length {
          return READNAME_ERROR;
        }
        var target := JumpTarget(c, p[offset]);
        offset := offset + 1;
        if DNS_HEADER_SIZE <= target < p.Length {
          var res := ReadNameLoop(p, target, domain, depth + 1);
          return if res == READNAME_ERROR then READNAME_ERROR else offset;
        } else {
          return READNAME_ERROR;
        }
      }
      if c > LABEL_MAXLEN || c + domain.length >= DOMAIN_MAXLEN {
        return READNAME_ERROR;
      }
      ghost var acc := domain.Bytes();
      var res := domain.AddLabelPbuf(p, offset, c);
      if res != ERR_OK {
        return READNAME_ERROR;
      }
      if c == 0 {
        return offset;
      }
      assert domain.Bytes() == acc + pkt[offset - 1..offset + c];
      offset := offset + c;
    }
  }

  // `mdns_readname`
  method ReadNameInto(p: array<byte>, offset: nat, domain: Domain) returns (next: nat)
    requires domain.Valid() && p != domain.name
    requires p.Length + 1 < READNAME_ERROR && offset <= p.Length
    modifies domain, domain.name
    ensures domain.Valid() && !domain.skipCompression
    ensures next == Offset(ReadName(p[..], offset))
    ensures ReadName(p[..], offset).Read? ==>
              next != READNAME_ERROR && domain.Bytes() == ReadName(p[..], offset).name
  {
    domain.length := 0;
    domain.skipCompression := false;
    assert domain.Bytes() == [];
    next := ReadNameLoop(p, offset, domain, 0);
  }
}
