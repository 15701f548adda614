/**
 Domain names in DNS packets: reading with decompression
 (network/lwip_mdns/mdns_server.c, `mdns_readname_loop`) against the meaning that
 section 4.1.4 of RFC 1035 gives to a possibly compressed name.

 A packet is a flat sequence of bytes. An encoded name is the byte sequence
 "length, characters, length, characters, ..., 0"; predicates on names take the index
 from which they speak of the name.
 */
module MdnsName {
  type byte = x: int | 0 <= x < 256

  const LABEL_MAXLEN := 63
  const DOMAIN_MAXLEN := 256
  const DNS_HEADER_SIZE := 12
  const MAX_JUMPS := 5
  const READNAME_ERROR := 0xFFFF

  // ----- encoded names -----

  // From i on, n consists of labels followed by the zero marker.
  predicate WellFormed(n: seq<byte>, i: nat)
    decreases |n| - i
  {
    i < |n| &&
    if n[i] == 0 then i + 1 == |n|
    else n[i] <= LABEL_MAXLEN && WellFormed(n, i + 1 + n[i])
  }

  // The number of non-empty labels from i on.
  function Labels(n: seq<byte>, i: nat): nat
    requires WellFormed(n, i)
    decreases |n| - i
  {
    if n[i] == 0 then 0 else 1 + Labels(n, i + 1 + n[i])
  }

  // Reading labels from i on, one of them (or the zero marker) starts at k.
  predicate Boundary(n: seq<byte>, i: nat, k: nat): (b: bool)
    requires WellFormed(n, i)
    ensures b ==> i <= k < |n|
    decreases |n| - i
  {
    i == k || (n[i] != 0 && Boundary(n, i + 1 + n[i], k))
  }

  lemma {:induction false} BoundaryWellFormed(n: seq<byte>, i: nat, k: nat)
    requires WellFormed(n, i) && Boundary(n, i, k)
    ensures WellFormed(n, k)
    ensures i < k ==> Labels(n, k) < Labels(n, i)
    decreases |n| - i
  {
    if i != k {
      BoundaryWellFormed(n, i + 1 + n[i], k);
    }
  }

  // Past a boundary, the boundaries are those reached from it.
  lemma {:induction false} BoundaryVia(n: seq<byte>, i: nat, k: nat, m: nat)
    requires WellFormed(n, i) && Boundary(n, i, k) && WellFormed(n, k) && k <= m
    ensures Boundary(n, i, m) <==> Boundary(n, k, m)
    decreases |n| - i
  {
    if i != k {
      BoundaryVia(n, i + 1 + n[i], k, m);
    }
  }

  // ----- what a name in a packet means -----

  function Get(p: seq<byte>, i: nat): (c: byte)
    ensures i < |p| ==> c == p[i]
  {
    if i < |p| then p[i] else 0
  }

  // The two bytes 11xxxxxx yyyyyyyy give the 14-bit address xxxxxxyyyyyyyy.
  predicate IsJump(c: byte) { c >= 0xC0 }

  function JumpTarget(hi: byte, lo: byte): nat
    requires IsJump(hi)
  {
    (hi - 0xC0) * 256 + lo
  }

  /** The two bytes of a pointer: the upper two bits set, and the offset in network byte order (section 4.1.4 of
      RFC 1035). */
  lemma PointerBytes(target: nat, hi: byte, lo: byte)
    requires target < 0x4000 && IsJump(hi)
    ensures JumpTarget(hi, lo) == target <==> hi == 0xC0 + target / 256 && lo == target % 256
  {
  }

  // The len bytes of n from i are the bytes of p from off.
  ghost predicate SameBytes(n: seq<byte>, i: nat, p: seq<byte>, off: nat, len: nat) {
    && i + len <= |n| && off + len <= |p|
    && forall x {:trigger n[x]} :: i <= x < i + len ==> n[x] == p[x + off - i]
  }

  /** At `off`, packet p spells the name n from index i on, following exactly `jumps`
      pointers on the way. */
  ghost predicate Denotes(p: seq<byte>, off: nat, n: seq<byte>, i: nat, jumps: nat)
    decreases jumps, |n| - i
  {
    var c := Get(p, off);
    if IsJump(c) then
      && jumps > 0 && off + 1 < |p|
      && DNS_HEADER_SIZE <= JumpTarget(c, p[off + 1]) < |p|
      && Denotes(p, JumpTarget(c, p[off + 1]), n, i, jumps - 1)
    else if c == 0 then
      i + 1 == |n| && n[i] == 0 && jumps == 0
    else
      && c <= LABEL_MAXLEN && SameBytes(n, i, p, off, 1 + c)
      && Denotes(p, off + 1 + c, n, i + 1 + c, jumps)
  }

  // Where the bytes of the name that starts at off end: after its zero marker or its pointer.
  function End(p: seq<byte>, off: nat): (e: nat)
    ensures e > off
    decreases |p| - off
  {
    var c := Get(p, off);
    if IsJump(c) then off + 2
    else if c == 0 || off + 1 + c > |p| then off + 1
    else End(p, off + 1 + c)
  }

  // Positions below lo or from hi up to (not including) end.
  datatype Region = Region(lo: nat, hi: nat, end: nat) {
    predicate Has(x: nat) { x < lo || hi <= x < end }

    predicate HasSpan(a: nat, b: nat) { b <= lo || (hi <= a && b <= end) || (hi <= lo && b <= end) }
  }

  function Below(w: nat): Region { Region(w, w, w) }

  // Reading the name at off looks at no byte outside r.
  ghost predicate Within(p: seq<byte>, off: nat, n: seq<byte>, i: nat, jumps: nat, r: Region)
    requires Denotes(p, off, n, i, jumps)
    decreases jumps, |n| - i
  {
    var c := Get(p, off);
    if IsJump(c) then
      r.HasSpan(off, off + 2) && Within(p, JumpTarget(c, p[off + 1]), n, i, jumps - 1, r)
    else if c == 0 then
      r.HasSpan(off, off + 1)
    else
      r.HasSpan(off, off + 1 + c) && Within(p, off + 1 + c, n, i + 1 + c, jumps, r)
  }

  // q holds the bytes of p throughout r.
  ghost predicate SameOn(p: seq<byte>, q: seq<byte>, r: Region) {
    && (r.lo <= |p| && r.lo <= |q|) && (r.hi < r.end ==> r.end <= |p| && r.end <= |q|)
    && forall x: nat {:trigger p[x]} {:trigger q[x]} :: r.Has(x) ==> q[x] == p[x]
  }

  // A name keeps its meaning and its extent in any packet that keeps the bytes it looks at.
  lemma {:induction false} DenotesFrame(p: seq<byte>, q: seq<byte>, off: nat, n: seq<byte>, i: nat, jumps: nat, r: Region)
    requires Denotes(p, off, n, i, jumps) && Within(p, off, n, i, jumps, r) && SameOn(p, q, r)
    ensures Denotes(q, off, n, i, jumps) && Within(q, off, n, i, jumps, r)
    ensures End(q, off) == End(p, off)
    decreases jumps, |n| - i
  {
    var c := Get(p, off);
    assert q[off] == p[off];
    if IsJump(c) {
      assert q[off + 1] == p[off + 1];
      var t := JumpTarget(c, p[off + 1]);
      DenotesFrame(p, q, t, n, i, jumps - 1, r);
      assert r.Has(t);
    } else if c != 0 {
      DenotesFrame(p, q, off + 1 + c, n, i + 1 + c, jumps, r);
    }
  }

  lemma {:induction false} WithinLarger(p: seq<byte>, off: nat, n: seq<byte>, i: nat, jumps: nat, r: Region, s: Region)
    requires Denotes(p, off, n, i, jumps) && Within(p, off, n, i, jumps, r)
    requires s.HasSpan(0, r.lo) && (s.HasSpan(r.hi, r.end) || r.end <= r.hi)
    ensures Within(p, off, n, i, jumps, s)
    decreases jumps, |n| - i
  {
    var c := Get(p, off);
    if IsJump(c) {
      WithinLarger(p, JumpTarget(c, p[off + 1]), n, i, jumps - 1, r, s);
    } else if c != 0 {
      WithinLarger(p, off + 1 + c, n, i + 1 + c, jumps, r, s);
    }
  }

  // What a name means is well formed and unique.
  lemma {:induction false} DenotesWellFormed(p: seq<byte>, off: nat, n: seq<byte>, i: nat, jumps: nat)
    requires Denotes(p, off, n, i, jumps)
    ensures WellFormed(n, i)
    decreases jumps, |n| - i
  {
    var c := Get(p, off);
    if IsJump(c) {
      DenotesWellFormed(p, JumpTarget(c, p[off + 1]), n, i, jumps - 1);
    } else if c != 0 {
      DenotesWellFormed(p, off + 1 + c, n, i + 1 + c, jumps);
      assert n[i] == p[off];
    }
  }

  lemma {:induction false} DenotesUnique(p: seq<byte>, off: nat, n: seq<byte>, m: seq<byte>, i: nat, j: nat, k: nat)
    requires Denotes(p, off, n, i, j) && Denotes(p, off, m, i, k)
    ensures |n| == |m| && j == k
    ensures forall x :: i <= x < |n| ==> n[x] == m[x]
    decreases j, |n| - i
  {
    var c := Get(p, off);
    if IsJump(c) {
      DenotesUnique(p, JumpTarget(c, p[off + 1]), n, m, i, j - 1, k - 1);
    } else if c != 0 {
      DenotesUnique(p, off + 1 + c, n, m, i + 1 + c, j, k);
      forall x | i <= x < i + 1 + c ensures n[x] == m[x] {
        assert n[x] == p[x + off - i] == m[x];
      }
    }
  }

  // ----- the reader -----

  datatype ReadResult = ReadError | Read(name: seq<byte>, next: nat)

  /** `mdns_readname_loop`: continue a name of which `name` has been collected already. */
  function ReadLoop(p: seq<byte>, offset: nat, name: seq<byte>, depth: nat): ReadResult
    decreases MAX_JUMPS + 1 - depth, DOMAIN_MAXLEN - |name|
  {
    if depth > MAX_JUMPS then ReadError else
    var c := Get(p, offset);
    if IsJump(c) then
      if offset + 1 >= |p| then ReadError else
      var t := JumpTarget(c, p[offset + 1]);
      if !(DNS_HEADER_SIZE <= t < |p|) then ReadError else
      var r := ReadLoop(p, t, name, depth + 1);
      if r.ReadError? then ReadError else Read(r.name, offset + 2)
    else if c > LABEL_MAXLEN || c + |name| >= DOMAIN_MAXLEN then ReadError
    else if c == 0 then Read(name + [0], offset + 1)
    else if 1 + c + |name| >= DOMAIN_MAXLEN || offset + 1 + c > |p| then ReadError
    else ReadLoop(p, offset + 1 + c, name + p[offset..offset + 1 + c], depth)
  }

  // One round of the loop.
  lemma ReadStep(p: seq<byte>, offset: nat, name: seq<byte>, depth: nat)
    ensures var c, r := Get(p, offset), ReadLoop(p, offset, name, depth);
            && (depth > MAX_JUMPS ==> r == ReadError)
            && (depth <= MAX_JUMPS && IsJump(c) && offset + 1 >= |p| ==> r == ReadError)
            && (depth <= MAX_JUMPS && IsJump(c) && offset + 1 < |p| ==>
                 var t := JumpTarget(c, p[offset + 1]);
                 if DNS_HEADER_SIZE <= t < |p| then
                   var s := ReadLoop(p, t, name, depth + 1);
                   r == if s.ReadError? then ReadError else Read(s.name, offset + 2)
                 else r == ReadError)
            && (depth <= MAX_JUMPS && !IsJump(c) ==>
                 if c > LABEL_MAXLEN || c + |name| >= DOMAIN_MAXLEN then r == ReadError
                 else if c == 0 then r == Read(name + [0], offset + 1)
                 else if 1 + c + |name| >= DOMAIN_MAXLEN || offset + 1 + c > |p| then r == ReadError
                 else r == ReadLoop(p, offset + 1 + c, name + p[offset..offset + 1 + c], depth))
  {
    hide JumpTarget;
  }

  function ReadName(p: seq<byte>, offset: nat): ReadResult {
    ReadLoop(p, offset, [], 0)
  }

  // A name that fits is read when it needs no more jumps than are left, and refused otherwise.
  lemma {:induction false} ReadLoopComplete(p: seq<byte>, off: nat, n: seq<byte>, i: nat, depth: nat, jumps: nat)
    requires Denotes(p, off, n, i, jumps)
    requires i <= |n| <= DOMAIN_MAXLEN
    ensures ReadLoop(p, off, n[..i], depth) ==
            if depth + jumps <= MAX_JUMPS then Read(n, End(p, off)) else ReadError
    decreases jumps, |n| - i
  {
    var c := Get(p, off);
    if depth > MAX_JUMPS {
    } else if IsJump(c) {
      ReadLoopComplete(p, JumpTarget(c, p[off + 1]), n, i, depth + 1, jumps - 1);
    } else if c == 0 {
      assert n[..i] + [0] == n;
    } else {
      assert n[..i] + p[off..off + 1 + c] == n[..i + 1 + c];
      DenotesWellFormed(p, off + 1 + c, n, i + 1 + c, jumps);
      ReadLoopComplete(p, off + 1 + c, n, i + 1 + c, depth, jumps);
    }
  }

  // Whatever is read is what the packet says there, and it fits.
  lemma {:induction false} ReadLoopSound(p: seq<byte>, off: nat, acc: seq<byte>, depth: nat) returns (jumps: nat)
    requires ReadLoop(p, off, acc, depth).Read?
    ensures var n := ReadLoop(p, off, acc, depth).name;
            && |acc| < |n| <= DOMAIN_MAXLEN && n[..|acc|] == acc
            && Denotes(p, off, n, |acc|, jumps)
    ensures depth + jumps <= MAX_JUMPS
    ensures ReadLoop(p, off, acc, depth).next == End(p, off)
    decreases MAX_JUMPS + 1 - depth, DOMAIN_MAXLEN - |acc|
  {
    var c := Get(p, off);
    if IsJump(c) {
      jumps := ReadLoopSound(p, JumpTarget(c, p[off + 1]), acc, depth + 1);
      jumps := jumps + 1;
    } else if c == 0 {
      jumps := 0;
    } else {
      var acc' := acc + p[off..off + 1 + c];
      jumps := ReadLoopSound(p, off + 1 + c, acc', depth);
      var n := ReadLoop(p, off, acc, depth).name;
      assert n[..|acc|] == n[..|acc'|][..|acc|];
      forall x | |acc| <= x < |acc| + 1 + c ensures n[x] == p[x + off - |acc|] {
        assert n[x] == n[..|acc'|][x];
      }
    }
  }

  ghost predicate Spells(p: seq<byte>, off: nat, n: seq<byte>) {
    exists jumps: nat :: jumps <= 5 && Denotes(p, off, n, 0, jumps)
  }

  /** Reading a name succeeds with n exactly when the packet spells n there within five
      jumps and n fits in 256 bytes; it then stops right after the name's own bytes. */
  lemma ReadNameMeaning(p: seq<byte>, off: nat, n: seq<byte>, e: nat)
    ensures ReadName(p, off) == Read(n, e) <==>
            |n| <= 256 && Spells(p, off, n) && e == End(p, off)
  {
    if ReadName(p, off) == Read(n, e) {
      var jumps := ReadLoopSound(p, off, [], 0);
      assert Denotes(p, off, n, 0, jumps);
    } else if |n| <= DOMAIN_MAXLEN && Spells(p, off, n) {
      var jumps: nat :| jumps <= 5 && Denotes(p, off, n, 0, jumps);
      ReadLoopComplete(p, off, n, 0, 0, jumps);
    }
  }

  /** Every successful read leaves a well-formed, zero-terminated label sequence. */
  lemma ReadNameWellFormed(p: seq<byte>, off: nat)
    requires ReadName(p, off).Read?
    ensures WellFormed(ReadName(p, off).name, 0)
    ensures |ReadName(p, off).name| <= DOMAIN_MAXLEN
  {
    var jumps := ReadLoopSound(p, off, [], 0);
    DenotesWellFormed(p, off, ReadName(p, off).name, 0, jumps);
  }
}
